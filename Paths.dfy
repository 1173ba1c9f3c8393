/** What `add_path`, `add_cycle` and `clear` of
    checker/HierarchicalGraph.cpp do to the store, as functions of the
    store's value, and what follows from them. */
module Paths {
  import opened Strings
  import opened Nodes
  import opened Overlaps

  /** The suffixes of `a` longer than `k` characters: the nodes a path
      out of `a` descends through when it meets the next string after
      an overlap of `k`. */
  function SuffixesLonger(a: string, k: nat): set<string>
    decreases |a|
  {
    if |a| <= k then {} else {a} + SuffixesLonger(Suffix(a), k)
  }

  /** The prefixes of `b` longer than `k` characters: the nodes the path
      climbs through into `b`. */
  function PrefixesLonger(b: string, k: nat): set<string>
    decreases |b|
  {
    if |b| <= k then {} else {b} + PrefixesLonger(Prefix(b), k)
  }

  /** The nodes `get_node` builds along a path from `a` to `b` with
      overlap `k`: asking for `a` itself (the longest of its suffixes
      taken) builds every substring of `a`, unless the path does not
      leave `a` at all; likewise for `b`. */
  ghost function PathKeys(a: string, b: string, k: nat): set<string>
  {
    (if k < |a| then Substrings(a) else {}) + (if k < |b| then Substrings(b) else {})
  }

  /** The store after `get_node` on every string of `s`: nodes already
      there are kept, the others are added fresh. */
  function Extend(g: Graph, s: set<string>): Graph
  {
    map k | k in g.Keys + s :: if k in g then g[k] else Fresh
  }

  /** Two more edges leave every node of `sufs` to its suffix and enter
      every node of `pres` from its prefix. */
  function AddEdges(g: Graph, sufs: set<string>, pres: set<string>): Graph
  {
    map k | k in g ::
      Node(g[k].fromPrefix + (if k in pres then 2 else 0),
           g[k].toSuffix + (if k in sufs then 2 else 0),
           g[k].isRoot)
  }

  /** The store after `add_path(a, b)`: the doubled walk from `a` down
      through its suffixes to the longest overlap with `b`, and up
      through the prefixes of `b`. Every node on it is built if missing. */
  ghost function PathAdded(g: Graph, a: string, b: string): Graph
  {
    var k := LongestOverlap(a, b);
    var sufs, pres := SuffixesLonger(a, k), PrefixesLonger(b, k);
    AddEdges(Extend(g, PathKeys(a, b, k)), sufs, pres)
  }

  /** The store after the paths of `add_cycle(es)` from index `i` on:
      from each element to the next, and from the last back to the first. */
  ghost function CycleFrom(g: Graph, es: seq<string>, i: nat): Graph
    decreases |es| - i
  {
    if i >= |es| then g
    else CycleFrom(PathAdded(g, es[i], es[(i + 1) % |es|]), es, i + 1)
  }

  /** The store after `add_cycle(es)`. */
  ghost function CycleAdded(g: Graph, es: seq<string>): Graph
  {
    CycleFrom(g, es, 0)
  }

  /** The store after `clear_edges` on every node of `s`. */
  function Cleared(g: Graph, s: set<string>): Graph
  {
    map k | k in g :: if k in s then g[k].(fromPrefix := 0, toSuffix := 0) else g[k]
  }

  // ---- add_path ----------------------------------------------------------

  /** The suffixes of `a` longer than `k` are exactly the strings of
      length in `(k, |a|]` that end `a`. */
  lemma {:induction false} SuffixesLongerMembers(a: string, k: nat, x: string)
    ensures x in SuffixesLonger(a, k) <==> k < |x| <= |a| && x == a[|a| - |x|..]
    decreases |a|
  {
    if |a| > k {
      SuffixesLongerMembers(Suffix(a), k, x);
      if x != a && k < |x| <= |a| && x == a[|a| - |x|..] {
        assert x == Suffix(a)[|Suffix(a)| - |x|..];
      }
    }
  }

  /** The prefixes of `b` longer than `k` are exactly the strings of
      length in `(k, |b|]` that start `b`. */
  lemma {:induction false} PrefixesLongerMembers(b: string, k: nat, x: string)
    ensures x in PrefixesLonger(b, k) <==> k < |x| <= |b| && x == b[..|x|]
    decreases |b|
  {
    if |b| > k {
      PrefixesLongerMembers(Prefix(b), k, x);
      if x != b && k < |x| <= |b| && x == b[..|x|] {
        assert x == Prefix(b)[..|x|];
      }
    }
  }

  /** A string has `|a| - k` suffixes longer than `k`. */
  lemma {:induction false} SuffixesLongerCount(a: string, k: nat)
    requires k <= |a|
    ensures |SuffixesLonger(a, k)| == |a| - k
    decreases |a|
  {
    if k < |a| {
      SuffixesLongerCount(Suffix(a), k);
      SuffixesLongerMembers(Suffix(a), k, a);
    }
  }

  /** A string has `|b| - k` prefixes longer than `k`. */
  lemma {:induction false} PrefixesLongerCount(b: string, k: nat)
    requires k <= |b|
    ensures |PrefixesLonger(b, k)| == |b| - k
    decreases |b|
  {
    if k < |b| {
      PrefixesLongerCount(Prefix(b), k);
      PrefixesLongerMembers(Prefix(b), k, b);
    }
  }

  /** Every node of a path between two stored strings is already stored. */
  lemma PathStored(g: Graph, a: string, b: string, k: nat)
    requires Closed(g.Keys) && a in g && b in g
    ensures PathKeys(a, b, k) <= g.Keys
  {
    ClosedHoldsSubstrings(g.Keys, a);
    ClosedHoldsSubstrings(g.Keys, b);
  }

  /** A path between two stored strings creates no node. */
  lemma PathAddedStored(g: Graph, a: string, b: string)
    requires Closed(g.Keys) && a in g && b in g
    ensures PathAdded(g, a, b).Keys == g.Keys
  {
    PathStored(g, a, b, LongestOverlap(a, b));
  }

  /** A path keeps every node and its root flag. */
  lemma PathAddedRoots(g: Graph, a: string, b: string, x: string)
    requires x in g
    ensures x in PathAdded(g, a, b) && PathAdded(g, a, b)[x].isRoot == g[x].isRoot
  {
  }

  /** `add_path(a, a)` changes nothing: the overlap is all of `a`, so
      there is no step to take and no node to build. */
  lemma PathAddedSelf(g: Graph, a: string)
    ensures PathAdded(g, a, a) == g
  {
    LongestOverlapSelf(a);
    assert SuffixesLonger(a, |a|) == {};
    assert PrefixesLonger(a, |a|) == {};
  }

  lemma {:induction false} SuffixesAreSubstrings(a: string, k: nat)
    ensures SuffixesLonger(a, k) <= Substrings(a)
    decreases |a|
  {
    if |a| > k {
      SuffixesAreSubstrings(Suffix(a), k);
    }
  }

  lemma {:induction false} PrefixesAreSubstrings(b: string, k: nat)
    ensures PrefixesLonger(b, k) <= Substrings(b)
    decreases |b|
  {
    if |b| > k {
      PrefixesAreSubstrings(Prefix(b), k);
    }
  }

  lemma CountRemove(keys: set<string>, s: set<string>, k: string)
    requires k in keys
    ensures |keys * s| == |(keys - {k}) * s| + (if k in s then 1 else 0)
  {
    if k in s {
      assert keys * s == (keys - {k}) * s + {k};
    } else {
      assert keys * s == (keys - {k}) * s;
    }
  }

  /** The total of `AddEdges` over `keys` grows by two for every key on
      either side. */
  lemma {:induction false} SumAddEdges(g: Graph, sufs: set<string>, pres: set<string>, keys: set<string>)
    requires keys <= g.Keys
    ensures SumWeights(AddEdges(g, sufs, pres), keys)
            == SumWeights(g, keys) + 2 * |keys * sufs| + 2 * |keys * pres|
    decreases keys
  {
    var h := AddEdges(g, sufs, pres);
    if keys != {} {
      var k :| k in keys && SumWeights(g, keys) == Weight(g[k]) + SumWeights(g, keys - {k});
      SumWeightsRemove(h, keys, k);
      SumAddEdges(g, sufs, pres, keys - {k});
      assert Weight(h[k]) == Weight(g[k]) + (if k in sufs then 2 else 0) + (if k in pres then 2 else 0);
      CountRemove(keys, sufs, k);
      CountRemove(keys, pres, k);
    }
  }

  /** The edge weight `add_path(a, b)` adds between stored strings:
      two at each of the suffixes of `a` and prefixes of `b` longer
      than their longest overlap. */
  function PathWeight(a: string, b: string): nat
  {
    var k := LongestOverlap(a, b);
    2 * (|a| - k) + 2 * (|b| - k)
  }

  /** A path between two stored strings with longest overlap `k` adds
      two edges at each of the `|a| - k` suffixes of `a` and each of the
      `|b| - k` prefixes of `b` it passes. */
  lemma PathAddedTotal(g: Graph, a: string, b: string)
    requires Closed(g.Keys) && a in g && b in g
    ensures Total(PathAdded(g, a, b)) == Total(g) + PathWeight(a, b)
  {
    var k := LongestOverlap(a, b);
    PathAddedOnStored(g, a, b);
    TotalAddEdges(g, SuffixesLonger(a, k), PrefixesLonger(b, k));
    SuffixesLongerCount(a, k);
    PrefixesLongerCount(b, k);
  }

  /** Between strings already stored, `add_path` builds no node and only
      adds the edges of the walk. */
  lemma PathAddedOnStored(g: Graph, a: string, b: string)
    requires Closed(g.Keys) && a in g && b in g
    ensures var k := LongestOverlap(a, b);
            SuffixesLonger(a, k) + PrefixesLonger(b, k) <= g.Keys &&
            PathAdded(g, a, b) == AddEdges(g, SuffixesLonger(a, k), PrefixesLonger(b, k))
  {
    var k := LongestOverlap(a, b);
    PathStored(g, a, b, k);
    assert Extend(g, PathKeys(a, b, k)) == g;
    SuffixesAreSubstrings(a, k);
    PrefixesAreSubstrings(b, k);
  }

  /** Adding edges at stored strings adds two per string to the total. */
  lemma TotalAddEdges(g: Graph, sufs: set<string>, pres: set<string>)
    requires sufs + pres <= g.Keys
    ensures Total(AddEdges(g, sufs, pres)) == Total(g) + 2 * |sufs| + 2 * |pres|
  {
    SumAddEdges(g, sufs, pres, g.Keys);
    assert AddEdges(g, sufs, pres).Keys == g.Keys;
    assert g.Keys * sufs == sufs && g.Keys * pres == pres;
  }

  /** The store after `get_node` on every string of `s`, stated by its
      effect: the keys grew by `s`, old nodes kept, new nodes fresh. */
  lemma ExtendBy(h: Graph, h': Graph, s: set<string>)
    requires h'.Keys == h.Keys + s
    requires forall x :: x in h ==> h'[x] == h[x]
    requires forall x :: x in h' && x !in h ==> h'[x] == Fresh
    ensures h' == Extend(h, s)
  {
  }

  /** Extending twice is extending by both sets. */
  lemma ExtendTwice(g: Graph, s: set<string>, t: set<string>)
    ensures Extend(Extend(g, s), t) == Extend(g, s + t)
  {
  }

  /** One step of the first loop of `add_path`: `get_node(t)`, then two
      more edges from `t` to its suffix. */
  ghost function DescendOne(g: Graph, t: string): Graph
  {
    var h := Extend(g, Substrings(t));
    h[t := h[t].(toSuffix := h[t].toSuffix + 2)]
  }

  /** The first loop of `add_path` as the source runs it: a step at `t`
      and then at each of its suffixes, down to length `k + 1`. */
  ghost function Descend(g: Graph, t: string, k: nat): Graph
    decreases |t|
  {
    if |t| <= k then g else Descend(DescendOne(g, t), Suffix(t), k)
  }

  /** One step of the second loop of `add_path`: `get_node(t)`, then two
      more edges into `t` from its prefix. */
  ghost function ClimbOne(g: Graph, t: string): Graph
  {
    var h := Extend(g, Substrings(t));
    h[t := h[t].(fromPrefix := h[t].fromPrefix + 2)]
  }

  /** The second loop of `add_path`: a step at `t` and then at each of
      its prefixes, down to length `k + 1`. */
  ghost function Climb(g: Graph, t: string, k: nat): Graph
    decreases |t|
  {
    if |t| <= k then g else Climb(ClimbOne(g, t), Prefix(t), k)
  }

  /** The nodes a walk from `t` builds. */
  ghost function WalkKeys(t: string, k: nat): set<string>
  {
    if k < |t| then Substrings(t) else {}
  }

  /** One step down on top of edges added at other strings. */
  lemma DescendOneAddEdges(g: Graph, sufs: set<string>, t: string)
    requires sufs <= g.Keys && t !in sufs
    ensures DescendOne(AddEdges(g, sufs, {}), t) == AddEdges(Extend(g, Substrings(t)), sufs + {t}, {})
  {
    var s := Substrings(t);
    var a := AddEdges(g, sufs, {});
    var lhs := DescendOne(a, t);
    var rhs := AddEdges(Extend(g, s), sufs + {t}, {});
    assert t in s;
    assert a.Keys == g.Keys;
    assert Extend(a, s).Keys == g.Keys + s == Extend(g, s).Keys;
    assert lhs.Keys == rhs.Keys;
    forall x | x in lhs
      ensures lhs[x] == rhs[x]
    {
      if x in g {
        assert rhs[x] == Node(g[x].fromPrefix, g[x].toSuffix + (if x in sufs + {t} then 2 else 0), g[x].isRoot);
      }
    }
  }

  /** One step up on top of edges added at other strings. */
  lemma ClimbOneAddEdges(g: Graph, sufs: set<string>, pres: set<string>, t: string)
    requires sufs + pres <= g.Keys && t !in pres
    ensures ClimbOne(AddEdges(g, sufs, pres), t) == AddEdges(Extend(g, Substrings(t)), sufs, pres + {t})
  {
    var s := Substrings(t);
    var a := AddEdges(g, sufs, pres);
    var lhs := ClimbOne(a, t);
    var rhs := AddEdges(Extend(g, s), sufs, pres + {t});
    assert t in s;
    assert a.Keys == g.Keys;
    assert Extend(a, s).Keys == g.Keys + s == Extend(g, s).Keys;
    assert lhs.Keys == rhs.Keys;
    forall x | x in lhs
      ensures lhs[x] == rhs[x]
    {
      if x in g {
        assert rhs[x] == Node(g[x].fromPrefix + (if x in pres + {t} then 2 else 0),
                              g[x].toSuffix + (if x in sufs then 2 else 0), g[x].isRoot);
      }
    }
  }

  /** The nodes of a walk from a substring of `t` are already built by
      the step at `t`. */
  lemma ExtendWithin(g: Graph, t: string, u: string, k: nat)
    requires u in Substrings(t)
    ensures Extend(Extend(g, Substrings(t)), WalkKeys(u, k)) == Extend(g, Substrings(t))
  {
    SubstringsOfSubstring(t, u);
    ExtendTwice(g, Substrings(t), WalkKeys(u, k));
    assert Substrings(t) + WalkKeys(u, k) == Substrings(t);
  }

  /** A walk down from `t` builds every substring of `t` and puts two
      edges on each suffix of `t` longer than `k`, on top of the edges
      already added at longer strings. */
  lemma {:induction false} DescendIsAddEdges(g: Graph, sufs: set<string>, t: string, k: nat)
    requires sufs <= g.Keys
    requires forall x :: x in sufs ==> |x| > |t|
    ensures Descend(AddEdges(g, sufs, {}), t, k)
            == AddEdges(Extend(g, WalkKeys(t, k)), sufs + SuffixesLonger(t, k), {})
    decreases |t|
  {
    if |t| <= k {
      assert Extend(g, {}) == g;
    } else {
      var g' := Extend(g, Substrings(t));
      DescendOneAddEdges(g, sufs, t);
      DescendIsAddEdges(g', sufs + {t}, Suffix(t), k);
      ExtendWithin(g, t, Suffix(t), k);
      assert sufs + {t} + SuffixesLonger(Suffix(t), k) == sufs + SuffixesLonger(t, k);
    }
  }

  /** A walk up from `t` builds every substring of `t` and puts two
      edges on each prefix of `t` longer than `k`. */
  lemma {:induction false} ClimbIsAddEdges(g: Graph, sufs: set<string>, pres: set<string>, t: string, k: nat)
    requires sufs + pres <= g.Keys
    requires forall x :: x in pres ==> |x| > |t|
    ensures Climb(AddEdges(g, sufs, pres), t, k)
            == AddEdges(Extend(g, WalkKeys(t, k)), sufs, pres + PrefixesLonger(t, k))
    decreases |t|
  {
    if |t| <= k {
      assert Extend(g, {}) == g;
    } else {
      var g' := Extend(g, Substrings(t));
      ClimbOneAddEdges(g, sufs, pres, t);
      ClimbIsAddEdges(g', sufs, pres + {t}, Prefix(t), k);
      ExtendWithin(g, t, Prefix(t), k);
      assert pres + {t} + PrefixesLonger(Prefix(t), k) == pres + PrefixesLonger(t, k);
    }
  }

  /** `add_path(a, b)` as the source runs it, the walk down from `a`
      followed by the walk up to `b`, is the path of `PathAdded`. */
  lemma PathAddedIsWalk(g: Graph, a: string, b: string)
    ensures var k := LongestOverlap(a, b);
            Climb(Descend(g, a, k), b, k) == PathAdded(g, a, b)
  {
    var k := LongestOverlap(a, b);
    assert AddEdges(g, {}, {}) == g;
    DescendIsAddEdges(g, {}, a, k);
    var ka := WalkKeys(a, k);
    var sufs := SuffixesLonger(a, k);
    var g1 := Extend(g, ka);
    SuffixesAreSubstrings(a, k);
    assert {} + sufs == sufs;
    ClimbIsAddEdges(g1, sufs, {}, b, k);
    ExtendTwice(g, ka, WalkKeys(b, k));
    assert ka + WalkKeys(b, k) == PathKeys(a, b, k);
    assert {} + PrefixesLonger(b, k) == PrefixesLonger(b, k);
  }

  // ---- add_cycle ---------------------------------------------------------

  /** A cycle through stored strings creates no node. */
  lemma {:induction false} CycleAddedStored(g: Graph, es: seq<string>, i: nat)
    requires Closed(g.Keys)
    requires forall j :: 0 <= j < |es| ==> es[j] in g
    ensures CycleFrom(g, es, i).Keys == g.Keys
    decreases |es| - i
  {
    if i < |es| {
      var h := PathAdded(g, es[i], es[(i + 1) % |es|]);
      PathAddedStored(g, es[i], es[(i + 1) % |es|]);
      CycleAddedStored(h, es, i + 1);
    }
  }

  /** A cycle through stored strings keeps every node and its root flag. */
  lemma {:induction false} CycleAddedRoots(g: Graph, es: seq<string>, i: nat, x: string)
    requires Closed(g.Keys) && x in g
    requires forall j :: 0 <= j < |es| ==> es[j] in g
    ensures x in CycleFrom(g, es, i) && CycleFrom(g, es, i)[x].isRoot == g[x].isRoot
    decreases |es| - i
  {
    if i < |es| {
      var h := PathAdded(g, es[i], es[(i + 1) % |es|]);
      PathAddedStored(g, es[i], es[(i + 1) % |es|]);
      PathAddedRoots(g, es[i], es[(i + 1) % |es|], x);
      CycleAddedRoots(h, es, i + 1, x);
    }
  }

  /** A cycle of one string is the path from it to itself, which
      changes nothing. */
  lemma CycleAddedSingle(g: Graph, a: string)
    ensures CycleAdded(g, [a]) == g
  {
    var es := [a];
    assert es[0] == a && es[(0 + 1) % |es|] == a;
    assert CycleFrom(g, es, 0) == CycleFrom(PathAdded(g, a, a), es, 1);
    PathAddedSelf(g, a);
  }

  /** An empty cycle changes nothing. */
  lemma CycleAddedEmpty(g: Graph)
    ensures CycleAdded(g, []) == g
  {
  }

  // ---- clear -------------------------------------------------------------

  /** After `clear` every cleared node has no edges; nothing else changes. */
  lemma ClearedEffect(g: Graph, s: set<string>)
    ensures var r := Cleared(g, s);
            && r.Keys == g.Keys
            && (forall k :: k in s && k in g ==> Weight(r[k]) == 0 && r[k].isRoot == g[k].isRoot)
            && (forall k :: k in g && k !in s ==> r[k] == g[k])
  {
  }

  /** Clearing one more node. */
  lemma ClearedStep(g: Graph, s: set<string>, x: string)
    requires x in g
    ensures var h := Cleared(g, s);
            Cleared(g, s + {x}) == h[x := h[x].(fromPrefix := 0, toSuffix := 0)]
  {
  }

  /** Clearing one set and then another is clearing both. */
  lemma ClearedTwice(g: Graph, s: set<string>, t: set<string>)
    ensures Cleared(Cleared(g, s), t) == Cleared(g, s + t)
  {
  }

  /** Clearing twice is clearing once. */
  lemma ClearedIdempotent(g: Graph, s: set<string>)
    ensures Cleared(Cleared(g, s), s) == Cleared(g, s)
  {
  }

  /** A sum over nodes with no edges is zero. */
  lemma {:induction false} SumWeightsZero(g: Graph, keys: set<string>)
    requires keys <= g.Keys
    requires forall k :: k in keys ==> Weight(g[k]) == 0
    ensures SumWeights(g, keys) == 0
    decreases keys
  {
    if keys != {} {
      var k :| k in keys && SumWeights(g, keys) == Weight(g[k]) + SumWeights(g, keys - {k});
      SumWeightsZero(g, keys - {k});
    }
  }

  /** Clearing every node leaves no edge in the store. */
  lemma ClearedAllTotal(g: Graph, s: set<string>)
    requires g.Keys <= s
    ensures Total(Cleared(g, s)) == 0
  {
    var r := Cleared(g, s);
    assert r.Keys == g.Keys;
    forall k | k in r.Keys
      ensures Weight(r[k]) == 0
    {
      assert k in s;
    }
    SumWeightsZero(r, r.Keys);
  }

  /** Clearing every node forgets all edges: two stores with the same
      nodes and the same roots are equal once cleared. */
  lemma ClearedForgetsEdges(g: Graph, h: Graph, s: set<string>)
    requires g.Keys == h.Keys && g.Keys <= s
    requires forall k :: k in g ==> g[k].isRoot == h[k].isRoot
    ensures Cleared(g, s) == Cleared(h, s)
  {
    forall k | k in g
      ensures Cleared(g, s)[k] == Cleared(h, s)[k]
    {
    }
  }
}
