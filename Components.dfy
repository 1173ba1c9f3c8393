/** What `check_weak_components` of checker/HierarchicalGraph.cpp
    computes, as functions of the store's value: the partition of a layer
    into upper components, the colouring of the layer by lower
    components, and the comparison of the two. */
module Components {
  import opened Strings
  import opened Nodes
  import opened Traversals

  /** The strings of `xs` of length `l`, in their order: the
      `erase(remove_if(...))` that trims an upper component to its layer. */
  function KeepLength(xs: seq<string>, l: nat): (r: seq<string>)
    ensures forall y :: y in r <==> y in xs && |y| == l
    decreases |xs|
  {
    if xs == [] then []
    else (if |xs[0]| == l then [xs[0]] else []) + KeepLength(xs[1..], l)
  }

  /** The layer-`l` part of the upper component of each seed not yet
      visited, in seed order. An upper search from a seed marks its whole
      component, layers above included, as visited. */
  ghost function UpperComponents(g: Graph, l: nat, seeds: seq<string>, visited: set<string>)
    : seq<set<string>>
    decreases |seeds|
  {
    if seeds == [] then []
    else if seeds[0] in visited then UpperComponents(g, l, seeds[1..], visited)
    else
      var reach := Reach(g, UpperWalk(l), {}, seeds[0]);
      [set y | y in reach && |y| == l] + UpperComponents(g, l, seeds[1..], visited + reach)
  }

  /** `UpperComponents` after the components `acc` found so far: the
      order in which the source's loop meets them. */
  ghost function UpperFrom(g: Graph, l: nat, seeds: seq<string>, visited: set<string>, acc: seq<set<string>>)
    : seq<set<string>>
    decreases |seeds|
  {
    if seeds == [] then acc
    else if seeds[0] in visited then UpperFrom(g, l, seeds[1..], visited, acc)
    else
      var reach := Reach(g, UpperWalk(l), {}, seeds[0]);
      UpperFrom(g, l, seeds[1..], visited + reach, acc + [set y | y in reach && |y| == l])
  }

  /** Collecting after `acc` appends the components to `acc`. */
  lemma {:induction false} UpperFromAppends(g: Graph, l: nat, seeds: seq<string>, visited: set<string>,
                                            acc: seq<set<string>>)
    ensures UpperFrom(g, l, seeds, visited, acc) == acc + UpperComponents(g, l, seeds, visited)
    decreases |seeds|
  {
    if seeds != [] {
      if seeds[0] in visited {
        UpperFromAppends(g, l, seeds[1..], visited, acc);
      } else {
        var reach := Reach(g, UpperWalk(l), {}, seeds[0]);
        var first := set y | y in reach && |y| == l;
        UpperFromAppends(g, l, seeds[1..], visited + reach, acc + [first]);
        assert acc + [first] + UpperComponents(g, l, seeds[1..], visited + reach)
            == acc + ([first] + UpperComponents(g, l, seeds[1..], visited + reach));
      }
    }
  }

  /** The colour map after a lower search from each seed not yet
      coloured, the `n`-th such seed giving its component colour
      `cnt + n`. */
  ghost function LowerColouring(g: Graph, seeds: seq<string>, used: map<string, int>, cnt: int)
    : map<string, int>
    decreases |seeds|
  {
    if seeds == [] then used
    else if seeds[0] in used then LowerColouring(g, seeds[1..], used, cnt)
    else LowerColouring(g, seeds[1..], Paint(used, Reach(g, LowerWalk, used.Keys, seeds[0]), cnt), cnt + 1)
  }

  /** `lower_components[s]`: the colour of `s`, and 0 for a string never
      coloured, which is what `operator[]` of a `std::map` yields. */
  function ColourOf(colours: map<string, int>, s: string): int
  {
    if s in colours then colours[s] else 0
  }

  /** All strings of `c` carry the same colour. */
  ghost predicate SingleColoured(colours: map<string, int>, c: set<string>)
  {
    forall x, y :: x in c && y in c ==> ColourOf(colours, x) == ColourOf(colours, y)
  }

  /** Neighbours in `c` carry the same colour. */
  ghost predicate AdjacentSame(colours: map<string, int>, c: seq<string>)
  {
    forall i :: 0 <= i < |c| - 1 ==> ColourOf(colours, c[i]) == ColourOf(colours, c[i + 1])
  }

  /** The outcome `check_weak_components(l)` promises: every upper
      component of layer `l` lies inside one lower component. */
  ghost predicate WeakComponentsAgree(g: Graph, l: nat, seeds: seq<string>)
  {
    var upper := UpperComponents(g, l, seeds, {});
    var colours := LowerColouring(g, seeds, map[], 0);
    forall i :: 0 <= i < |upper| ==> SingleColoured(colours, upper[i])
  }

  // ---- upper components ----------------------------------------------------

  /** `s` lies in one of the sets of `cs`. */
  ghost predicate InSome(cs: seq<set<string>>, s: string)
  {
    exists i :: 0 <= i < |cs| && s in cs[i]
  }

  /** Every upper component is a non-empty set of stored layer-`l`
      strings; in particular trimming never leaves a component empty. */
  lemma {:induction false} UpperComponentsShape(g: Graph, l: nat, seeds: seq<string>, visited: set<string>)
    requires Closed(g.Keys)
    requires forall i :: 0 <= i < |seeds| ==> seeds[i] in g && |seeds[i]| == l
    ensures var upper := UpperComponents(g, l, seeds, visited);
            forall i :: 0 <= i < |upper| ==>
              upper[i] != {} && forall y :: y in upper[i] ==> y in g && |y| == l
    decreases |seeds|
  {
    if seeds != [] {
      var upper := UpperComponents(g, l, seeds, visited);
      if seeds[0] in visited {
        UpperComponentsShape(g, l, seeds[1..], visited);
        assert upper == UpperComponents(g, l, seeds[1..], visited);
      } else {
        var reach := Reach(g, UpperWalk(l), {}, seeds[0]);
        UpperReachLevels(g, l, {}, seeds[0]);
        var first := set y | y in reach && |y| == l;
        assert seeds[0] in first;
        var rest := UpperComponents(g, l, seeds[1..], visited + reach);
        UpperComponentsShape(g, l, seeds[1..], visited + reach);
        assert upper == [first] + rest;
        forall i | 0 <= i < |upper|
          ensures upper[i] != {} && forall y :: y in upper[i] ==> y in g && |y| == l
        {
          if i > 0 {
            assert upper[i] == UpperComponents(g, l, seeds[1..], visited + reach)[i - 1];
          }
        }
      }
    }
  }

  /** A string in one of the later components is in some component. */
  lemma InSomeCons(first: set<string>, rest: seq<set<string>>, s: string)
    requires InSome(rest, s)
    ensures InSome([first] + rest, s)
  {
    var i :| 0 <= i < |rest| && s in rest[i];
    assert ([first] + rest)[i + 1] == rest[i];
  }

  /** Every seed lies in some upper component, unless it was visited
      before the first seed was looked at. */
  lemma {:induction false} UpperComponentsCover(g: Graph, l: nat, seeds: seq<string>, visited: set<string>, k: nat)
    requires Closed(g.Keys) && k < |seeds|
    requires forall i :: 0 <= i < |seeds| ==> seeds[i] in g && |seeds[i]| == l
    ensures seeds[k] in visited || InSome(UpperComponents(g, l, seeds, visited), seeds[k])
    decreases |seeds|
  {
    var upper := UpperComponents(g, l, seeds, visited);
    if seeds[0] in visited {
      if k > 0 {
        assert seeds[1..][k - 1] == seeds[k];
        UpperComponentsCover(g, l, seeds[1..], visited, k - 1);
        assert upper == UpperComponents(g, l, seeds[1..], visited);

      }
    } else {
      var reach := Reach(g, UpperWalk(l), {}, seeds[0]);
      UpperReachLevels(g, l, {}, seeds[0]);
      var first := set y | y in reach && |y| == l;
      var rest := UpperComponents(g, l, seeds[1..], visited + reach);
      assert upper == [first] + rest;
      if k == 0 {
        assert seeds[0] in upper[0];
      } else if seeds[k] in reach {
        assert seeds[k] in upper[0];
      } else if seeds[k] !in visited {
        assert seeds[1..][k - 1] == seeds[k];
        UpperComponentsCover(g, l, seeds[1..], visited + reach, k - 1);
        InSomeCons(first, rest, seeds[k]);
      }
    }
  }

  // ---- lower colouring ----------------------------------------------------

  /** The lower colouring never overwrites a colour. */
  lemma {:induction false} LowerColouringKeeps(g: Graph, seeds: seq<string>, used: map<string, int>, cnt: int)
    ensures var colours := LowerColouring(g, seeds, used, cnt);
            forall s :: s in used ==> s in colours && colours[s] == used[s]
    decreases |seeds|
  {
    if seeds != [] {
      if seeds[0] in used {
        LowerColouringKeeps(g, seeds[1..], used, cnt);
      } else {
        var used' := Paint(used, Reach(g, LowerWalk, used.Keys, seeds[0]), cnt);
        LowerColouringKeeps(g, seeds[1..], used', cnt + 1);
      }
    }
  }

  /** The lower colouring colours every seed. */
  lemma {:induction false} LowerColouringCovers(g: Graph, seeds: seq<string>, used: map<string, int>, cnt: int)
    requires forall i :: 0 <= i < |seeds| ==> seeds[i] in g
    ensures var colours := LowerColouring(g, seeds, used, cnt);
            forall i :: 0 <= i < |seeds| ==> seeds[i] in colours
    decreases |seeds|
  {
    if seeds != [] {
      var colours := LowerColouring(g, seeds, used, cnt);
      var used' := if seeds[0] in used then used
                   else Paint(used, Reach(g, LowerWalk, used.Keys, seeds[0]), cnt);
      var cnt' := if seeds[0] in used then cnt else cnt + 1;
      assert colours == LowerColouring(g, seeds[1..], used', cnt');
      if seeds[0] !in used {
        ReachStart(g, LowerWalk, used.Keys, seeds[0]);
      }
      assert seeds[0] in used';
      LowerColouringCovers(g, seeds[1..], used', cnt');
      LowerColouringKeeps(g, seeds[1..], used', cnt');
      forall i | 0 <= i < |seeds|
        ensures seeds[i] in colours
      {
        if i > 0 {
          assert seeds[i] == seeds[1..][i - 1];
        }
      }
    }
  }

  /** The lower colouring of layer-`l` seeds colours only stored
      layer-`l` strings. */
  lemma {:induction false} LowerColouringLayer(g: Graph, l: nat, seeds: seq<string>, used: map<string, int>, cnt: int)
    requires Closed(g.Keys) && l >= 1
    requires forall i :: 0 <= i < |seeds| ==> seeds[i] in g && |seeds[i]| == l
    ensures var colours := LowerColouring(g, seeds, used, cnt);
            forall s :: s in colours && s !in used ==> s in g && |s| == l
    decreases |seeds|
  {
    if seeds != [] {
      if seeds[0] in used {
        LowerColouringLayer(g, l, seeds[1..], used, cnt);
      } else {
        var reach := Reach(g, LowerWalk, used.Keys, seeds[0]);
        LowerReachSameLayer(g, used.Keys, seeds[0]);
        LowerColouringLayer(g, l, seeds[1..], Paint(used, reach, cnt), cnt + 1);
      }
    }
  }

  /** Each fresh seed opens a new colour: strings coloured by the
      colouring get colours from `cnt` up, so when the colours given
      before are all below `cnt` no new component shares one of them. */
  lemma {:induction false} LowerColouringFresh(g: Graph, seeds: seq<string>, used: map<string, int>, cnt: int)
    requires forall s :: s in used ==> used[s] < cnt
    ensures var colours := LowerColouring(g, seeds, used, cnt);
            forall s :: s in colours && s !in used ==> colours[s] >= cnt
    decreases |seeds|
  {
    if seeds != [] {
      if seeds[0] in used {
        LowerColouringFresh(g, seeds[1..], used, cnt);
      } else {
        var used' := Paint(used, Reach(g, LowerWalk, used.Keys, seeds[0]), cnt);
        LowerColouringFresh(g, seeds[1..], used', cnt + 1);
        LowerColouringKeeps(g, seeds[1..], used', cnt + 1);
      }
    }
  }

  // ---- comparing the two ----------------------------------------------------

  /** Checking neighbours is enough: a sequence whose neighbours share
      a colour is single-coloured, and conversely. */
  lemma {:induction false} AdjacentSameIsSingle(colours: map<string, int>, c: seq<string>)
    ensures AdjacentSame(colours, c) <==> SingleColoured(colours, set y | y in c)
    decreases |c|
  {
    if AdjacentSame(colours, c) && c != [] {
      AdjacentSameIsSingle(colours, c[1..]);
      assert AdjacentSame(colours, c[1..]) by {
        forall i | 0 <= i < |c[1..]| - 1
          ensures ColourOf(colours, c[1..][i]) == ColourOf(colours, c[1..][i + 1])
        {
          assert c[1..][i] == c[i + 1] && c[1..][i + 1] == c[i + 2];
        }
      }
      forall x, y | x in c && y in c
        ensures ColourOf(colours, x) == ColourOf(colours, y)
      {
        if |c| > 1 {
          assert c[1] in c[1..];
          assert x == c[0] || x in c[1..];
          assert y == c[0] || y in c[1..];
        }
      }
    }
    if SingleColoured(colours, set y | y in c) {
      forall i | 0 <= i < |c| - 1
        ensures ColourOf(colours, c[i]) == ColourOf(colours, c[i + 1])
      {
        assert c[i] in c && c[i + 1] in c;
      }
    }
  }
}
