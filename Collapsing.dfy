/** What `collapse_layer` of checker/HierarchicalGraph.cpp does to the
    store, as a function of the store's value: the nodes of one layer are
    visited in order, and each either keeps one matched pair of edges or
    sends all of them one layer down. */
module Collapsing {
  import opened Strings
  import opened Nodes
  import opened Traversals

  /** The retention rule: a node keeps one matched pair when it is
      balanced, has a parent carrying an edge into it (or is a root), and
      cannot reach the empty node. */
  ghost predicate Retains(g: Graph, x: string)
    requires Closed(g.Keys) && x in g
  {
    IsBalanced(g[x]) && HasParents(g, x) && !EpsReachable(g, x)
  }

  /** One visit of `collapse_layer`: `collapse_all_but_one` when the node
      is retained, `collapse_all` otherwise. */
  ghost function CollapseStep(g: Graph, x: string): (r: Graph)
    requires Closed(g.Keys) && x in g && x != ""
    ensures r.Keys == g.Keys
  {
    if Retains(g, x) then CollapseAllButOne(g, x) else CollapseAll(g, x)
  }

  /** The store after visiting the nodes of `xs` in order. */
  ghost function CollapseNodes(g: Graph, xs: seq<string>): (r: Graph)
    requires Closed(g.Keys)
    requires forall i :: 0 <= i < |xs| ==> xs[i] in g && xs[i] != ""
    ensures r.Keys == g.Keys
    decreases |xs|
  {
    if xs == [] then g
    else CollapseStep(CollapseNodes(g, xs[..|xs| - 1]), xs[|xs| - 1])
  }

  /** Every string of `xs` is a stored node of layer `l`. */
  ghost predicate InLayer(g: Graph, xs: seq<string>, l: nat)
  {
    forall i :: 0 <= i < |xs| ==> xs[i] in g && |xs[i]| == l
  }

  /** The store after `collapse_layer(j)`, `collapse_layer(j - 1)`, ...,
      `collapse_layer(1)` on the layers `ls`: the collapsing half of a
      trial, from the top layer down. It keeps every node and its root
      flag. */
  ghost function CollapseLayersDown(g: Graph, ls: seq<seq<string>>, j: nat): (r: Graph)
    requires Closed(g.Keys) && j < |ls|
    requires forall i :: 1 <= i <= j ==> InLayer(g, ls[i], i)
    ensures r.Keys == g.Keys
    ensures forall k :: k in g ==> r[k].isRoot == g[k].isRoot
    decreases j
  {
    if j == 0 then g
    else
      LayerNonEmpty(g, ls[j], j);
      var h := CollapseNodes(g, ls[j]);
      CollapseNodesFrame(g, ls[j], j);
      LayersSameKeys(g, h, ls, j - 1);
      CollapseLayersDown(h, ls, j - 1)
  }

  /** The strings of a layer above 0 are non-empty. */
  lemma LayerNonEmpty(g: Graph, xs: seq<string>, l: nat)
    requires l >= 1 && InLayer(g, xs, l)
    ensures forall i :: 0 <= i < |xs| ==> xs[i] in g && xs[i] != ""
  {
    forall i | 0 <= i < |xs|
      ensures xs[i] in g && xs[i] != ""
    {
      assert |xs[i]| == l;
    }
  }

  /** Layer membership depends on the stored keys only. */
  lemma LayersSameKeys(g: Graph, h: Graph, ls: seq<seq<string>>, j: nat)
    requires g.Keys == h.Keys && j < |ls|
    requires forall i :: 1 <= i <= j + 1 && i < |ls| ==> InLayer(g, ls[i], i)
    ensures forall i :: 1 <= i <= j ==> InLayer(h, ls[i], i)
  {
    forall i | 1 <= i <= j
      ensures InLayer(h, ls[i], i)
    {
      assert InLayer(g, ls[i], i);
    }
  }

  /** No string occurs twice in `xs`. */
  ghost predicate Distinct(xs: seq<string>)
  {
    forall i, j :: 0 <= i < j < |xs| ==> xs[i] != xs[j]
  }

  /** A sorted layer has no repeated string. */
  lemma SortedDistinct(xs: seq<string>)
    requires StrictlySorted(xs)
    ensures Distinct(xs)
  {
    forall i, j | 0 <= i < j < |xs|
      ensures xs[i] != xs[j]
    {
      LexIrreflexive(xs[i]);
    }
  }

  /** One visit moves matched pairs from `x` to its prefix and suffix and
      touches no other node and no root flag; it leaves at most one pair
      at `x`, and one only where the retention rule held and there was
      a pair to keep. */
  lemma CollapseStepEffect(g: Graph, x: string)
    requires Closed(g.Keys) && x in g && x != ""
    ensures var r := CollapseStep(g, x);
            && (forall k :: k in g ==> r[k].isRoot == g[k].isRoot)
            && (forall k :: k in g && k != x && k != Prefix(x) && k != Suffix(x) ==> r[k] == g[k])
            && Min(r[x].fromPrefix, r[x].toSuffix) <= 1
            && (Min(r[x].fromPrefix, r[x].toSuffix) == 1
                <==> Retains(g, x) && Min(g[x].fromPrefix, g[x].toSuffix) >= 1)
            && Total(r) == Total(g)
  {
    assert Prefix(x) in g && Suffix(x) in g;
    var m := Min(g[x].fromPrefix, g[x].toSuffix);
    if Retains(g, x) {
      CollapseEffect(g, x, SizeDecrement(m));
      CollapseAllButOneKeepsOne(g, x);
      CollapseConserves(g, x, SizeDecrement(m));
    } else {
      CollapseEffect(g, x, m);
      CollapseAllEmpties(g, x);
      CollapseConserves(g, x, m);
    }
  }

  /** Visiting a layer moves edges but never creates or destroys any. */
  lemma {:induction false} CollapseNodesConserves(g: Graph, xs: seq<string>)
    requires Closed(g.Keys)
    requires forall i :: 0 <= i < |xs| ==> xs[i] in g && xs[i] != ""
    ensures Total(CollapseNodes(g, xs)) == Total(g)
    decreases |xs|
  {
    if xs != [] {
      CollapseNodesConserves(g, xs[..|xs| - 1]);
      CollapseStepEffect(CollapseNodes(g, xs[..|xs| - 1]), xs[|xs| - 1]);
    }
  }

  /** Visiting layer `l` changes counters only in layers `l` and `l - 1`,
      and no root flag anywhere. */
  lemma {:induction false} CollapseNodesFrame(g: Graph, xs: seq<string>, l: nat)
    requires Closed(g.Keys) && l >= 1 && InLayer(g, xs, l)
    ensures var r := CollapseNodes(g, xs);
            && (forall k :: k in g ==> r[k].isRoot == g[k].isRoot)
            && (forall k :: k in g && |k| != l && |k| != l - 1 ==> r[k] == g[k])
    decreases |xs|
  {
    if xs != [] {
      var ys := xs[..|xs| - 1];
      assert InLayer(g, ys, l);
      CollapseNodesFrame(g, ys, l);
      CollapseStepEffect(CollapseNodes(g, ys), xs[|xs| - 1]);
    }
  }

  /** A node's counters are final once it has been visited: the later
      visits in the same layer touch other nodes of the layer and the
      layer below only. */
  lemma {:induction false} CollapseNodesVisitedOnce(g: Graph, xs: seq<string>, l: nat, i: nat)
    requires Closed(g.Keys) && l >= 1 && InLayer(g, xs, l) && Distinct(xs) && i < |xs|
    ensures CollapseNodes(g, xs)[xs[i]] == CollapseNodes(g, xs[..i + 1])[xs[i]]
    decreases |xs|
  {
    if i < |xs| - 1 {
      var ys := xs[..|xs| - 1];
      assert InLayer(g, ys, l);
      assert ys[..i + 1] == xs[..i + 1];
      CollapseNodesVisitedOnce(g, ys, l, i);
      CollapseStepEffect(CollapseNodes(g, ys), xs[|xs| - 1]);
    } else {
      assert xs[..i + 1] == xs;
    }
  }

  /** After `collapse_layer` every node of the layer keeps at most one
      matched pair, and keeps one exactly when the retention rule held
      at the moment it was visited and it had a pair then. */
  lemma CollapseNodesLeavesAtMostOne(g: Graph, xs: seq<string>, l: nat, i: nat)
    requires Closed(g.Keys) && l >= 1 && InLayer(g, xs, l) && Distinct(xs) && i < |xs|
    ensures var r, h := CollapseNodes(g, xs), CollapseNodes(g, xs[..i]);
            && Min(r[xs[i]].fromPrefix, r[xs[i]].toSuffix) <= 1
            && (Min(r[xs[i]].fromPrefix, r[xs[i]].toSuffix) == 1
                <==> Retains(h, xs[i]) && Min(h[xs[i]].fromPrefix, h[xs[i]].toSuffix) >= 1)
  {
    CollapseNodesVisitedOnce(g, xs, l, i);
    var ys := xs[..i + 1];
    assert ys[..|ys| - 1] == xs[..i];
    CollapseStepEffect(CollapseNodes(g, xs[..i]), xs[i]);
  }

  /** `collapse_layer(l)` on a sorted layer: each node of the layer keeps
      at most one matched pair, and exactly one when it is retained on
      its visit with a pair to keep. */
  lemma LayerLeavesAtMostOne(g: Graph, xs: seq<string>, l: nat)
    requires Closed(g.Keys) && l >= 1 && InLayer(g, xs, l) && StrictlySorted(xs)
    ensures forall i :: 0 <= i < |xs| ==>
              var r := CollapseNodes(g, xs);
              && Min(r[xs[i]].fromPrefix, r[xs[i]].toSuffix) <= 1
              && (Min(r[xs[i]].fromPrefix, r[xs[i]].toSuffix) == 1
                  <==> Retains(CollapseNodes(g, xs[..i]), xs[i])
                       && Min(CollapseNodes(g, xs[..i])[xs[i]].fromPrefix,
                              CollapseNodes(g, xs[..i])[xs[i]].toSuffix) >= 1)
  {
    SortedDistinct(xs);
    forall i | 0 <= i < |xs|
      ensures var r := CollapseNodes(g, xs);
              && Min(r[xs[i]].fromPrefix, r[xs[i]].toSuffix) <= 1
              && (Min(r[xs[i]].fromPrefix, r[xs[i]].toSuffix) == 1
                  <==> Retains(CollapseNodes(g, xs[..i]), xs[i])
                       && Min(CollapseNodes(g, xs[..i])[xs[i]].fromPrefix,
                              CollapseNodes(g, xs[..i])[xs[i]].toSuffix) >= 1)
    {
      CollapseNodesLeavesAtMostOne(g, xs, l, i);
    }
  }
}
