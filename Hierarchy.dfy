/** The layered substring graph of checker/HierarchicalGraph.cpp: a node
    store together with its layers, the nodes of each length in ascending
    order, and the operations the driver calls on it. */
module Hierarchy {
  import opened Strings
  import opened Nodes
  import opened Traversals
  import opened NodeStore
  import opened Overlaps
  import opened Paths
  import opened Collapsing
  import opened Components

  /** The substrings of every string of `ss`. */
  ghost function AllSubstrings(ss: seq<string>): set<string>
    decreases |ss|
  {
    if ss == [] then {} else Substrings(ss[0]) + AllSubstrings(ss[1..])
  }

  /** The length of the longest string of `ss`, and 0 when there is none. */
  function MaxLength(ss: seq<string>): (m: nat)
    ensures forall i :: 0 <= i < |ss| ==> |ss[i]| <= m
    ensures ss != [] ==> exists i :: 0 <= i < |ss| && |ss[i]| == m
    ensures ss == [] ==> m == 0
    decreases |ss|
  {
    if ss == [] then 0
    else
      var m := MaxLength(ss[..|ss| - 1]);
      assert forall i :: 0 <= i < |ss| - 1 ==> ss[..|ss| - 1][i] == ss[i];
      if m >= |ss[|ss| - 1]| then m else |ss[|ss| - 1]|
  }

  /** No substring of the input is longer than the longest input string. */
  lemma {:induction false} AllSubstringsBounded(ss: seq<string>, x: string)
    requires x in AllSubstrings(ss)
    ensures |x| <= MaxLength(ss)
    decreases |ss|
  {
    if x in Substrings(ss[0]) {
      SubstringShorter(ss[0], x);
    } else {
      AllSubstringsBounded(ss[1..], x);
      var j :| 0 <= j < |ss[1..]| && |ss[1..][j]| == MaxLength(ss[1..]);
      assert ss[1..][j] == ss[j + 1];
    }
  }

  /** `get_node(s).set_root()`: one step of the constructor's first loop. */
  ghost function RootOne(g: Graph, s: string): Graph
  {
    var h := Extend(g, Substrings(s));
    h[s := h[s].(isRoot := true)]
  }

  /** The constructor's first loop: `get_node(s).set_root()` for every
      input string in turn. */
  ghost function RootsAdded(g: Graph, ss: seq<string>): Graph
    decreases |ss|
  {
    if ss == [] then g else RootsAdded(RootOne(g, ss[0]), ss[1..])
  }

  /** After the first loop every substring of an input string is stored;
      no counter changed, new nodes are fresh, and the input strings
      are roots. */
  lemma {:induction false} RootsAddedAt(g: Graph, ss: seq<string>, x: string)
    ensures x in RootsAdded(g, ss) <==> x in g || x in AllSubstrings(ss)
    ensures x in RootsAdded(g, ss) ==>
              var base := if x in g then g[x] else Fresh;
              RootsAdded(g, ss)[x] == base.(isRoot := base.isRoot || x in ss)
    decreases |ss|
  {
    if ss != [] {
      var s := ss[0];
      var h := RootOne(g, s);
      RootsAddedAt(h, ss[1..], x);
      assert s in Substrings(s);
      assert x in ss <==> x == s || x in ss[1..];
    }
  }

  /** The strings of `xs`, as a set. */
  function Elements(xs: seq<string>): set<string>
  {
    set x | x in xs
  }

  /** The strings of all the layers of `ls`. */
  function Flatten(ls: seq<seq<string>>): set<string>
    decreases |ls|
  {
    if ls == [] then {} else Flatten(ls[..|ls| - 1]) + Elements(ls[|ls| - 1])
  }

  /** Every string of every layer is among the flattened strings. */
  lemma {:induction false} FlattenHolds(ls: seq<seq<string>>, i: nat, x: string)
    requires i < |ls| && x in ls[i]
    ensures x in Flatten(ls)
    decreases |ls|
  {
    if i < |ls| - 1 {
      assert ls[..|ls| - 1][i] == ls[i];
      FlattenHolds(ls[..|ls| - 1], i, x);
    }
  }

  /** The edges of one trial of the driver on a store whose layers `ls`
      list every node and whose checks all pass: `add_cycle(es)` through
      stored strings, then `collapse_layer` from the top layer down to 1
      (`check_weak_components` changes nothing). It builds no node. */
  ghost function TrialEdges(g: Graph, es: seq<string>, ls: seq<seq<string>>): (r: Graph)
    requires Closed(g.Keys) && |ls| >= 1
    requires forall j :: 0 <= j < |es| ==> es[j] in g
    requires forall i :: 1 <= i < |ls| ==> InLayer(g, ls[i], i)
    ensures r.Keys == g.Keys
  {
    var c := CycleAdded(g, es);
    CycleAddedStored(g, es, 0);
    LayersSameKeys(g, c, ls, |ls| - 1);
    CollapseLayersDown(c, ls, |ls| - 1)
  }

  /** A trial ends in `clear`, which leaves the store as `clear` alone
      would have left it: no edges, the same nodes and the same roots. */
  lemma TrialForgetsEdges(g: Graph, es: seq<string>, ls: seq<seq<string>>)
    requires Closed(g.Keys) && |ls| >= 1
    requires forall j :: 0 <= j < |es| ==> es[j] in g
    requires forall i :: 1 <= i < |ls| ==> InLayer(g, ls[i], i)
    requires g.Keys <= Flatten(ls)
    ensures Cleared(TrialEdges(g, es, ls), Flatten(ls)) == Cleared(g, Flatten(ls))
  {
    var c := CycleAdded(g, es);
    CycleAddedStored(g, es, 0);
    LayersSameKeys(g, c, ls, |ls| - 1);
    var h := TrialEdges(g, es, ls);
    assert h == CollapseLayersDown(c, ls, |ls| - 1);
    forall x | x in g
      ensures h[x].isRoot == g[x].isRoot
    {
      CycleAddedRoots(g, es, 0, x);
    }
    ClearedForgetsEdges(h, g, Flatten(ls));
  }

  /** The body of the first loop of `check_weak_components`: the upper
      component of `x`, and its strings of length `l` in ascending order. */
  method UpperPart(g: Graph, l: nat, x: string) returns (comp: seq<string>, kept: seq<string>)
    requires Closed(g.Keys) && x in g
    ensures Elements(comp) == Reach(g, UpperWalk(l), {}, x)
    ensures Elements(kept) == set y | y in Reach(g, UpperWalk(l), {}, x) && |y| == l
  {
    comp := GetUpperComponent(g, x, l);
    kept := KeepLength(comp, l);
  }

  /** The strings of each sequence of `comps`, as sets. */
  ghost function SetsOf(comps: seq<seq<string>>): seq<set<string>>
    decreases |comps|
  {
    if comps == [] then [] else SetsOf(comps[..|comps| - 1]) + [Elements(comps[|comps| - 1])]
  }

  /** `SetsOf` keeps length and position. */
  lemma {:induction false} SetsOfAt(comps: seq<seq<string>>, j: nat)
    requires j < |comps|
    ensures |SetsOf(comps)| == |comps| && SetsOf(comps)[j] == Elements(comps[j])
    decreases |comps|
  {
    var init := comps[..|comps| - 1];
    if j < |init| {
      SetsOfAt(init, j);
    } else if init != [] {
      SetsOfAt(init, 0);
    }
  }

  /** Sequences whose sets are non-empty are non-empty, and they are
      single-coloured exactly when their sets are. */
  lemma SetsOfSingleColoured(comps: seq<seq<string>>, colours: map<string, int>)
    requires forall i :: 0 <= i < |SetsOf(comps)| ==> SetsOf(comps)[i] != {}
    ensures forall j :: 0 <= j < |comps| ==> comps[j] != []
    ensures (forall j :: 0 <= j < |comps| ==> SingleColoured(colours, Elements(comps[j])))
            <==> (forall i :: 0 <= i < |SetsOf(comps)| ==> SingleColoured(colours, SetsOf(comps)[i]))
  {
    if comps != [] {
      SetsOfAt(comps, 0);
    }
    forall j | 0 <= j < |comps|
      ensures SetsOf(comps)[j] == Elements(comps[j])
    {
      SetsOfAt(comps, j);
    }
  }

  /** The first loop of `check_weak_components`: an upper search from
      every seed not yet visited, the whole component marked visited, and
      its layer-`l` part kept. */
  method CollectUpperComponents(g: Graph, l: nat, seeds: seq<string>)
    returns (comps: seq<seq<string>>)
    requires Closed(g.Keys) && InLayer(g, seeds, l)
    ensures SetsOf(comps) == UpperComponents(g, l, seeds, {})
  {
    comps := [];
    var visited: set<string> := {};
    var i := 0;
    while i < |seeds|
      invariant 0 <= i <= |seeds|
      invariant UpperFrom(g, l, seeds[i..], visited, SetsOf(comps)) == UpperFrom(g, l, seeds, {}, [])
    {
      var x := seeds[i];
      assert seeds[i..][0] == x && seeds[i..][1..] == seeds[i + 1..];
      if x !in visited {
        var comp, kept := UpperPart(g, l, x);
        visited := visited + Elements(comp);
        comps := comps + [kept];
        assert comps[..|comps| - 1] == comps[..|comps| - 1];
      }
      i := i + 1;
    }
    UpperFromAppends(g, l, seeds, {}, []);
    assert seeds[i..] == [];
  }

  /** The second loop of `check_weak_components`: a lower search from
      every seed not yet coloured, each opening the next colour. */
  method ColourLowerComponents(g: Graph, l: nat, seeds: seq<string>)
    returns (colours: map<string, int>)
    requires Closed(g.Keys) && l >= 1 && InLayer(g, seeds, l)
    ensures colours == LowerColouring(g, seeds, map[], 0)
  {
    colours := map[];
    var cnt := 0;
    var i := 0;
    while i < |seeds|
      invariant 0 <= i <= |seeds|
      invariant colours.Keys <= g.Keys
      invariant LowerColouring(g, seeds, map[], 0) == LowerColouring(g, seeds[i..], colours, cnt)
    {
      var x := seeds[i];
      assert seeds[i..][0] == x && seeds[i..][1..] == seeds[i + 1..];
      if x !in colours {
        colours := GetLowerComponent(g, x, colours, cnt);
        cnt := cnt + 1;
      }
      i := i + 1;
    }
  }

  /** The last loop of `check_weak_components`: neighbours in every
      component must share their lower colour. No component is empty, so
      `size() - 1` never wraps around. */
  method AllAdjacentSame(colours: map<string, int>, comps: seq<seq<string>>) returns (ok: bool)
    requires forall j :: 0 <= j < |comps| ==> comps[j] != []
    ensures ok <==> forall j :: 0 <= j < |comps| ==> SingleColoured(colours, Elements(comps[j]))
  {
    var j := 0;
    while j < |comps|
      invariant 0 <= j <= |comps|
      invariant forall m :: 0 <= m < j ==> SingleColoured(colours, Elements(comps[m]))
    {
      var c := comps[j];
      var k := 0;
      while k < |c| - 1
        invariant 0 <= k <= |c| - 1
        invariant forall m :: 0 <= m < k ==> ColourOf(colours, c[m]) == ColourOf(colours, c[m + 1])
      {
        if ColourOf(colours, c[k]) != ColourOf(colours, c[k + 1]) {
          AdjacentSameIsSingle(colours, c);
          return false;
        }
        k := k + 1;
      }
      AdjacentSameIsSingle(colours, c);
      j := j + 1;
    }
    return true;
  }

  /** The body of the first loop of `add_path`. */
  method DescendStep(st: Storage, t: string)
    requires st.Valid()
    modifies st
    ensures st.Valid()
    ensures st.nodes == DescendOne(old(st.nodes), t)
  {
    st.GetNode(t);
    ExtendBy(old(st.nodes), st.nodes, Substrings(t));
    st.AddSuffixEdges(t, 2);
  }

  /** The body of the second loop of `add_path`. */
  method ClimbStep(st: Storage, t: string)
    requires st.Valid()
    modifies st
    ensures st.Valid()
    ensures st.nodes == ClimbOne(old(st.nodes), t)
  {
    st.GetNode(t);
    ExtendBy(old(st.nodes), st.nodes, Substrings(t));
    st.AddPrefixEdges(t, 2);
  }

  /** The store the constructor builds: the empty node and every
      substring of the input, without edges, the input strings as roots,
      none longer than the longest input string. */
  lemma BuiltStore(strings: seq<string>)
    ensures var g := RootsAdded(map["" := Fresh], strings);
            && g.Keys == {""} + AllSubstrings(strings)
            && forall x :: x in g ==>
                 && g[x].fromPrefix == 0 && g[x].toSuffix == 0
                 && (g[x].isRoot <==> x in strings)
                 && |x| <= MaxLength(strings)
  {
    var g0 := map["" := Fresh];
    var g := RootsAdded(g0, strings);
    forall x
      ensures x in g <==> x in {""} + AllSubstrings(strings)
      ensures x in g ==> && g[x].fromPrefix == 0 && g[x].toSuffix == 0
                         && (g[x].isRoot <==> x in strings)
                         && |x| <= MaxLength(strings)
    {
      RootsAddedAt(g0, strings, x);
      if x in g && x != "" {
        AllSubstringsBounded(strings, x);
      }
    }
  }

  /** The first loop of `add_path`: from the suffix of `a` of length
      `|a|` down to the one of length `k + 1`, build the node and add two
      edges to its suffix. */
  method DescendSuffixes(st: Storage, a: string, k: nat)
    requires st.Valid()
    modifies st
    ensures st.Valid()
    ensures st.nodes == Descend(old(st.nodes), a, k)
  {
    ghost var g0 := st.nodes;
    var i := |a|;
    assert a[|a| - i..] == a;
    while i > k
      invariant 0 <= i <= |a| && st.Valid()
      invariant Descend(st.nodes, a[|a| - i..], k) == Descend(g0, a, k)
    {
      var t := a[|a| - i..];
      DescendStep(st, t);
      assert Suffix(t) == a[|a| - (i - 1)..];
      i := i - 1;
    }
  }

  /** The second loop of `add_path`: from the prefix of `b` of length
      `|b|` down to the one of length `k + 1`, build the node and add two
      edges from its prefix. */
  method ClimbPrefixes(st: Storage, b: string, k: nat)
    requires st.Valid()
    modifies st
    ensures st.Valid()
    ensures st.nodes == Climb(old(st.nodes), b, k)
  {
    ghost var g0 := st.nodes;
    var i := |b|;
    assert b[..i] == b;
    while i > k
      invariant 0 <= i <= |b| && st.Valid()
      invariant Climb(st.nodes, b[..i], k) == Climb(g0, b, k)
    {
      var t := b[..i];
      ClimbStep(st, t);
      assert Prefix(t) == b[..i - 1];
      i := i - 1;
    }
  }

  /** One more string in the prefix of `ss` taken into account. */
  lemma MaxLengthStep(ss: seq<string>, i: nat)
    requires i < |ss|
    ensures var m := MaxLength(ss[..i]);
            MaxLength(ss[..i + 1]) == if m >= |ss[i]| then m else |ss[i]|
  {
    assert ss[..i + 1][..i] == ss[..i];
  }

  /** The body of the constructor's first loop. */
  method RootStep(st: Storage, s: string)
    requires st.Valid()
    modifies st
    ensures st.Valid()
    ensures st.nodes == RootOne(old(st.nodes), s)
  {
    st.GetNode(s);
    ExtendBy(old(st.nodes), st.nodes, Substrings(s));
    st.SetRoot(s);
  }

  /** The first loop of the graph's constructor: build the node of every
      input string and mark it as a root, tracking the longest length. */
  method AddRoots(st: Storage, strings: seq<string>) returns (maxLen: nat)
    requires st.Valid()
    modifies st
    ensures st.Valid()
    ensures st.nodes == RootsAdded(old(st.nodes), strings)
    ensures maxLen == MaxLength(strings)
  {
    ghost var g0 := st.nodes;
    maxLen := 0;
    var i := 0;
    while i < |strings|
      invariant i <= |strings| && st.Valid()
      invariant RootsAdded(st.nodes, strings[i..]) == RootsAdded(g0, strings)
      invariant maxLen == MaxLength(strings[..i])
    {
      var s := strings[i];
      RootStep(st, s);
      assert strings[i..][1..] == strings[i + 1..];
      MaxLengthStep(strings, i);
      maxLen := if maxLen >= |s| then maxLen else |s|;
      i := i + 1;
    }
    assert strings[..i] == strings;
  }

  /** Layers listing exactly the stored strings of each length, up to the
      longest stored length, place every stored string in its layer. */
  lemma LayersOfStore(g: Graph, ls: seq<seq<string>>, maxLen: nat)
    requires |ls| == maxLen + 1
    requires forall i, x :: 0 <= i < |ls| ==> (x in ls[i] <==> x in g && |x| == i)
    requires forall x :: x in g ==> |x| <= maxLen
    ensures forall i :: 0 <= i < |ls| ==> InLayer(g, ls[i], i)
    ensures forall x :: x in g ==> |x| < |ls| && x in ls[|x|]
  {
    forall i | 0 <= i < |ls|
      ensures InLayer(g, ls[i], i)
    {
      forall j | 0 <= j < |ls[i]|
        ensures ls[i][j] in g && |ls[i][j]| == i
      {
        assert ls[i][j] in ls[i];
      }
    }
  }

  /** The layers of the constructor: for each length up to `maxLen` the
      stored strings of that length, in ascending order. */
  method BuildLayers(g: Graph, maxLen: nat) returns (ls: seq<seq<string>>)
    ensures |ls| == maxLen + 1
    ensures forall i :: 0 <= i < |ls| ==> StrictlySorted(ls[i])
    ensures forall i, x :: 0 <= i < |ls| ==> (x in ls[i] <==> x in g && |x| == i)
  {
    ls := [];
    var j := 0;
    while j <= maxLen
      invariant 0 <= j <= maxLen + 1 && |ls| == j
      invariant forall i :: 0 <= i < j ==> StrictlySorted(ls[i])
      invariant forall i, x :: 0 <= i < j ==> (x in ls[i] <==> x in g && |x| == i)
    {
      var layer := SortedFromSet(set x | x in g && |x| == j);
      ls := ls + [layer];
      j := j + 1;
    }
  }

  /** The inner loop of `clear`: clear the edges of every node of `layer`. */
  method ClearLayer(st: Storage, layer: seq<string>)
    requires st.Valid() && forall j :: 0 <= j < |layer| ==> layer[j] in st.nodes
    modifies st
    ensures st.Valid()
    ensures st.nodes == Cleared(old(st.nodes), Elements(layer))
  {
    ghost var g0 := st.nodes;
    var j := 0;
    while j < |layer|
      invariant j <= |layer| && st.Valid() && st.nodes.Keys == g0.Keys
      invariant st.nodes == Cleared(g0, Elements(layer[..j]))
    {
      ClearedStep(g0, Elements(layer[..j]), layer[j]);
      st.ClearEdges(layer[j]);
      assert Elements(layer[..j + 1]) == Elements(layer[..j]) + {layer[j]} by {
        assert layer[..j + 1] == layer[..j] + [layer[j]];
      }
      j := j + 1;
    }
    assert layer[..j] == layer;
  }

  class HierarchicalGraph {
    /** The node store. */
    const storage: Storage
    /** `layers[i]`: nodes of length `i` in ascending order. */
    var layers: seq<seq<string>>
    /** The length of the longest input string. */
    var maxLayer: nat

    /** The store is closed and holds the empty string, there is one
        layer per length up to `maxLayer`, and each layer lists stored
        strings of its length in ascending order. */
    ghost predicate Valid()
      reads this, storage
    {
      && storage.Valid()
      && "" in storage.nodes
      && |layers| == maxLayer + 1
      && forall i :: 0 <= i < |layers| ==> StrictlySorted(layers[i]) && InLayer(storage.nodes, layers[i], i)
    }

    /** Every stored node is listed in its layer. Holds after
        construction; nodes `add_path` builds later are not listed. */
    ghost predicate Complete()
      reads this, storage
    {
      forall x :: x in storage.nodes ==> |x| < |layers| && x in layers[|x|]
    }

    /** The graph of `strings`: the empty node and the nodes of every
        substring, all without edges, the input strings marked as roots,
        and one sorted layer per length up to the longest input. */
    constructor (strings: seq<string>)
      ensures Valid() && Complete() && fresh(storage)
      ensures storage.nodes.Keys == {""} + AllSubstrings(strings)
      ensures forall x :: x in storage.nodes ==>
                && storage.nodes[x].fromPrefix == 0 && storage.nodes[x].toSuffix == 0
                && (storage.nodes[x].isRoot <==> x in strings)
      ensures maxLayer == MaxLength(strings)
    {
      var st := new Storage();
      st.GetNode("");
      assert st.nodes == map["" := Fresh];
      var maxLen := AddRoots(st, strings);
      BuiltStore(strings);
      var ls := BuildLayers(st.nodes, maxLen);
      LayersOfStore(st.nodes, ls, maxLen);
      storage := st;
      layers := ls;
      maxLayer := maxLen;
    }

    /** `add_path(a, b)`: two more edges along the walk from `a` down its
        suffixes to the longest overlap with `b` and up the prefixes of
        `b`, building missing nodes on the way. */
    method AddPath(a: string, b: string)
      requires Valid()
      modifies storage
      ensures Valid()
      ensures storage.nodes == PathAdded(old(storage.nodes), a, b)
    {
      var o := Overlap(a, b);
      DescendSuffixes(storage, a, |o|);
      ClimbPrefixes(storage, b, |o|);
      PathAddedIsWalk(old(storage.nodes), a, b);
    }

    /** `add_cycle(es)`: a path from every element to the next, and from
        the last back to the first. */
    method AddCycle(es: seq<string>)
      requires Valid()
      modifies storage
      ensures Valid()
      ensures storage.nodes == CycleAdded(old(storage.nodes), es)
    {
      var i := 0;
      while i < |es|
        invariant 0 <= i <= |es| && Valid()
        invariant CycleFrom(storage.nodes, es, i) == CycleAdded(old(storage.nodes), es)
      {
        AddPath(es[i], es[(i + 1) % |es|]);
        i := i + 1;
      }
    }

    /** `clear`: every node listed in a layer loses its edges. When the
        layers list every node, no edge is left. */
    method Clear()
      requires Valid()
      modifies storage
      ensures Valid()
      ensures storage.nodes == Cleared(old(storage.nodes), Flatten(layers))
      ensures old(Complete()) ==> Total(storage.nodes) == 0
    {
      ghost var g0 := storage.nodes;
      var i := 0;
      while i < |layers|
        invariant i <= |layers|
        invariant storage.Valid() && storage.nodes.Keys == g0.Keys
        invariant storage.nodes == Cleared(g0, Flatten(layers[..i]))
      {
        assert InLayer(g0, layers[i], i);
        ClearLayer(storage, layers[i]);
        ClearedTwice(g0, Flatten(layers[..i]), Elements(layers[i]));
        assert layers[..i + 1][..i] == layers[..i];
        i := i + 1;
      }
      assert layers[..i] == layers;
      if old(Complete()) {
        forall x | x in g0
          ensures x in Flatten(layers)
        {
          FlattenHolds(layers, |x|, x);
        }
        ClearedAllTotal(g0, Flatten(layers));
      }
    }

    /** `collapse_layer(l)`: visit the nodes of layer `l` in ascending
        order; a balanced node that has parents and cannot reach the
        empty node keeps one matched pair, every other node sends all its
        pairs down. */
    method CollapseLayer(l: nat)
      requires Valid() && 1 <= l <= maxLayer
      modifies storage
      ensures Valid()
      ensures storage.nodes == CollapseNodes(old(storage.nodes), layers[l])
      ensures forall i :: 0 <= i < |layers[l]| ==>
                Min(storage.nodes[layers[l][i]].fromPrefix, storage.nodes[layers[l][i]].toSuffix) <= 1
    {
      ghost var g0 := storage.nodes;
      var xs := layers[l];
      assert InLayer(g0, xs, l);
      var i := 0;
      while i < |xs|
        invariant 0 <= i <= |xs|
        invariant storage.Valid()
        invariant storage.nodes == CollapseNodes(g0, xs[..i])
      {
        var x := xs[i];
        var retain := false;
        if IsBalanced(storage.nodes[x]) {
          var parents := ScanParents(storage.nodes, x);
          if parents {
            var reaches := ReachesEps(storage.nodes, x);
            retain := !reaches;
          }
        }
        if retain {
          storage.CollapseAllButOne(x);
        } else {
          storage.CollapseAll(x);
        }
        assert xs[..i + 1][..i] == xs[..i];
        i := i + 1;
      }
      assert xs[..|xs|] == xs;
      LayerLeavesAtMostOne(g0, xs, l);
    }

    /** `check_weak_components(l)`: whether every upper component of
        layer `l` lies inside one lower component. */
    method CheckWeakComponents(l: nat) returns (ok: bool)
      requires Valid() && 1 <= l <= maxLayer
      ensures ok == WeakComponentsAgree(storage.nodes, l, layers[l])
    {
      var g := storage.nodes;
      var seeds := layers[l];
      var comps := CollectUpperComponents(g, l, seeds);
      var colours := ColourLowerComponents(g, l, seeds);
      UpperComponentsShape(g, l, seeds, {});
      SetsOfSingleColoured(comps, colours);
      ok := AllAdjacentSame(colours, comps);
    }
  }
}
