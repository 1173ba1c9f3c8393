/** The three bounded graph searches of a node (checker/Node.cpp):
    `eps_search`/`reaches_eps`, `upper_dfs`/`get_upper_component` and
    `get_lower_component`.

    Each is a depth-first search that threads a set of visited strings (for
    the lower search, the keys of the colour map) and skips a string already
    in it. The three differ only in which neighbours a node steps to; `Next`
    gathers those rules, and `Reach` is what every search must end up
    visiting: the strings reachable from the start along steps of `Next`
    without passing through an already visited string. */
module Traversals {
  import opened Strings
  import opened Nodes

  /** Which search is running. */
  datatype Walk =
    | EpsWalk(blocked: string)  // eps_search; `blocked` is the start node
    | UpperWalk(minLevel: nat)  // upper_dfs
    | LowerWalk                 // get_lower_component

  /** The prefix and suffix links that carry an edge: the prefix when
      edges enter from it, the suffix when edges leave to it. (In a closed
      store both links always exist; the membership tests only keep the
      result inside the graph.) */
  function DownLinks(g: Graph, x: string): set<string>
    requires x in g && x != ""
  {
    (if g[x].fromPrefix > 0 && Prefix(x) in g then {Prefix(x)} else {})
    + (if g[x].toSuffix > 0 && Suffix(x) in g then {Suffix(x)} else {})
  }

  /** The parents that carry an edge into `x`: prefix-parents with an edge
      from their prefix, suffix-parents with an edge to their suffix. */
  function UpParents(g: Graph, x: string): set<string>
  {
    (set y | y in PrefixParents(g, x) && g[y].fromPrefix > 0)
    + (set y | y in SuffixParents(g, x) && g[y].toSuffix > 0)
  }

  /** The neighbours one search steps to from `x`. */
  function Next(g: Graph, w: Walk, x: string): set<string>
  {
    if x !in g then {}
    else match w
      // eps_search stops at the empty node; elsewhere it follows the live
      // links down, except out of the blocked node, and always the live
      // parents up
      case EpsWalk(blocked) =>
        if x == "" then {}
        else (if x != blocked then DownLinks(g, x) else {}) + UpParents(g, x)
      // upper_dfs follows live links down only from strings longer than
      // the minimum level, and always the live parents up
      case UpperWalk(minLevel) =>
        (if |x| > minLevel then DownLinks(g, x) else {}) + UpParents(g, x)
      // get_lower_component steps to the live parents of its own live
      // prefix and suffix: siblings in the same layer (the search never
      // reaches the empty node, whose links are null)
      case LowerWalk =>
        if x == "" then {}
        else (if g[x].fromPrefix > 0 then UpParents(g, Prefix(x)) else {})
             + (if g[x].toSuffix > 0 then UpParents(g, Suffix(x)) else {})
  }

  lemma NextInGraph(g: Graph, w: Walk, x: string)
    ensures Next(g, w, x) <= g.Keys
  {
  }

  /** A walk of `Next` steps through strings of `g` outside `avoid`. */
  ghost predicate IsWalk(g: Graph, w: Walk, avoid: set<string>, p: seq<string>)
  {
    && |p| > 0
    && (forall i :: 0 <= i < |p| ==> p[i] in g && p[i] !in avoid)
    && (forall i :: 0 <= i < |p| - 1 ==> p[i + 1] in Next(g, w, p[i]))
  }

  /** The strings a search started at `x` with `avoid` already visited
      reaches: the ends of walks from `x` that avoid `avoid`. */
  ghost function Reach(g: Graph, w: Walk, avoid: set<string>, x: string): set<string>
  {
    set y | y in g && exists p :: IsWalk(g, w, avoid, p) && p[0] == x && p[|p| - 1] == y
  }

  lemma ReachStart(g: Graph, w: Walk, avoid: set<string>, x: string)
    requires x in g && x !in avoid
    ensures x in Reach(g, w, avoid, x)
  {
    assert IsWalk(g, w, avoid, [x]);
  }

  lemma ReachFromVisited(g: Graph, w: Walk, avoid: set<string>, x: string)
    requires x in avoid
    ensures Reach(g, w, avoid, x) == {}
  {
  }

  /** One more step from a reached string reaches its neighbour, unless the
      neighbour was visited before. */
  lemma ReachStep(g: Graph, w: Walk, avoid: set<string>, x: string, y: string, z: string)
    requires y in Reach(g, w, avoid, x) && z in Next(g, w, y) && z !in avoid
    ensures z in Reach(g, w, avoid, x)
  {
    var p :| IsWalk(g, w, avoid, p) && p[0] == x && p[|p| - 1] == y;
    assert z in g by { NextInGraph(g, w, y); }
    WalkSnoc(g, w, avoid, p, z);
    assert (p + [z])[0] == x;
  }

  /** A walk extended by a neighbour of its last string is a walk. */
  lemma WalkSnoc(g: Graph, w: Walk, avoid: set<string>, p: seq<string>, z: string)
    requires IsWalk(g, w, avoid, p) && z in Next(g, w, p[|p| - 1]) && z in g && z !in avoid
    ensures IsWalk(g, w, avoid, p + [z])
  {
    var q := p + [z];
    forall i | 0 <= i < |q| - 1
      ensures q[i + 1] in Next(g, w, q[i])
    {
      if i < |p| - 1 {
        assert q[i] == p[i] && q[i + 1] == p[i + 1];
      } else {
        assert q[i] == p[|p| - 1] && q[i + 1] == z;
      }
    }
    assert forall i :: 0 <= i < |q| ==> q[i] in g && q[i] !in avoid by {
      assert forall i :: 0 <= i < |p| ==> q[i] == p[i];
    }
  }

  /** A search launched from a neighbour `c` of `x`, once `x` and everything
      visited before it are marked, reaches nothing that the search from `x`
      would not have reached. */
  lemma ReachThroughNeighbour(g: Graph, w: Walk, avoid: set<string>, x: string, cur: set<string>, c: string)
    requires x in g && x !in avoid && avoid <= cur && c in Next(g, w, x)
    ensures Reach(g, w, cur, c) <= Reach(g, w, avoid, x)
  {
    forall y | y in Reach(g, w, cur, c)
      ensures y in Reach(g, w, avoid, x)
    {
      var p :| IsWalk(g, w, cur, p) && p[0] == c && p[|p| - 1] == y;
      WalkCons(g, w, avoid, cur, x, p);
      assert ([x] + p)[|[x] + p| - 1] == y;
    }
  }

  /** A walk avoiding `cur`, led by a neighbour of `x`, extends backwards
      to a walk from `x` that avoids any `avoid` inside `cur`. */
  lemma WalkCons(g: Graph, w: Walk, avoid: set<string>, cur: set<string>, x: string, p: seq<string>)
    requires x in g && x !in avoid && avoid <= cur
    requires IsWalk(g, w, cur, p) && p[0] in Next(g, w, x)
    ensures IsWalk(g, w, avoid, [x] + p)
  {
    var q := [x] + p;
    forall i | 0 <= i < |q| - 1
      ensures q[i + 1] in Next(g, w, q[i])
    {
      if i > 0 {
        assert q[i] == p[i - 1] && q[i + 1] == p[i];
      }
    }
    assert forall i :: 1 <= i < |q| ==> q[i] == p[i - 1];
  }

  /** A set that holds `x` and is closed under `Next` outside `avoid` holds
      every string reached from `x`. */
  lemma {:induction false} ReachWithin(g: Graph, w: Walk, avoid: set<string>, x: string, s: set<string>)
    requires x in s
    requires forall z :: z in s && z !in avoid ==> Next(g, w, z) <= s
    ensures Reach(g, w, avoid, x) <= s
  {
    forall y | y in Reach(g, w, avoid, x)
      ensures y in s
    {
      var p :| IsWalk(g, w, avoid, p) && p[0] == x && p[|p| - 1] == y;
      var i := 0;
      while i < |p| - 1
        invariant 0 <= i < |p| && p[i] in s
      {
        assert p[i + 1] in Next(g, w, p[i]);
        i := i + 1;
      }
    }
  }

  /** The state of a search from `x` begun with `avoid` visited, part way
      through: `x` and `avoid` are visited, nothing outside `avoid` that `x`
      does not reach is, and every visited string other than `x` has all
      its neighbours visited. */
  ghost predicate DfsState(g: Graph, w: Walk, avoid: set<string>, x: string, cur: set<string>)
  {
    && avoid + {x} <= cur
    && cur <= avoid + Reach(g, w, avoid, x)
    && (forall z :: z in cur && z !in avoid && z != x ==> Next(g, w, z) <= cur)
  }

  /** A recursive search into the neighbour `c` keeps the state, and leaves
      `c` visited. */
  lemma DfsStep(g: Graph, w: Walk, avoid: set<string>, x: string, cur: set<string>, c: string)
    requires x in g && x !in avoid && DfsState(g, w, avoid, x, cur) && c in Next(g, w, x)
    ensures DfsState(g, w, avoid, x, cur + Reach(g, w, cur, c))
    ensures c in cur + Reach(g, w, cur, c)
  {
    var r := Reach(g, w, cur, c);
    ReachThroughNeighbour(g, w, avoid, x, cur, c);
    forall z | z in r
      ensures Next(g, w, z) <= cur + r
    {
      forall u | u in Next(g, w, z) && u !in cur
        ensures u in r
      {
        ReachStep(g, w, cur, c, z, u);
      }
    }
    NextInGraph(g, w, x);
    if c !in cur {
      ReachStart(g, w, cur, c);
    }
  }

  /** Once all neighbours of `x` are visited the search has visited exactly
      what it reaches. */
  lemma DfsDone(g: Graph, w: Walk, avoid: set<string>, x: string, cur: set<string>)
    requires x in g && x !in avoid && DfsState(g, w, avoid, x, cur) && Next(g, w, x) <= cur
    ensures cur == avoid + Reach(g, w, avoid, x)
  {
    ReachWithin(g, w, avoid, x, cur);
  }

  /** Which counter of a parent must be positive for a search to step to
      it: `fromPrefix` for a prefix-parent, `toSuffix` for a suffix-parent. */
  datatype Side = FromPrefix | ToSuffix

  predicate Live(g: Graph, y: string, side: Side)
    requires y in g
  {
    match side
    case FromPrefix => g[y].fromPrefix > 0
    case ToSuffix => g[y].toSuffix > 0
  }

  /** The parent list of `x` on one side. */
  function ParentsOn(g: Graph, x: string, side: Side): set<string>
  {
    match side
    case FromPrefix => PrefixParents(g, x)
    case ToSuffix => SuffixParents(g, x)
  }

  // ---- eps_search / reaches_eps -----------------------------------------

  /** `eps_search`: depth-first search for the empty node, following live
      links down (never out of `blocked`) and live parents up. It returns
      true exactly when the empty node is reachable; when it returns false,
      everything reachable has been marked visited. The empty node itself is
      never marked. */
  method EpsSearch(g: Graph, blocked: string, x: string, visited: set<string>)
    returns (found: bool, visited': set<string>)
    requires Closed(g.Keys) && x in g && visited <= g.Keys && "" !in visited
    ensures found <==> "" in Reach(g, EpsWalk(blocked), visited, x)
    ensures !found ==> visited' == visited + Reach(g, EpsWalk(blocked), visited, x)
    decreases g.Keys - visited, 1
  {
    ghost var w := EpsWalk(blocked);
    if x in visited {
      ReachFromVisited(g, w, visited, x);
      return false, visited;
    }
    if x == "" {
      ReachStart(g, w, visited, x);
      return true, visited;
    }
    ReachStart(g, w, visited, x);
    found, visited' := EpsSearchDown(g, blocked, visited, x, visited + {x});
    if found {
      return;
    }
    ghost var afterDown := visited';
    found, visited' := EpsSearchParents(g, blocked, ParentsOn(g, x, FromPrefix), FromPrefix, visited, x, visited');
    if found {
      return;
    }
    found, visited' := EpsSearchParents(g, blocked, ParentsOn(g, x, ToSuffix), ToSuffix, visited, x, visited');
    if found {
      return;
    }
    assert Next(g, w, x) <= visited' by {
      assert x != blocked ==> DownLinks(g, x) <= afterDown;
    }
    DfsDone(g, w, visited, x, visited');
  }

  /** The first part of `eps_search` at `x`: unless `x` is the blocked
      node, search on through its live prefix link and then its live
      suffix link. */
  method EpsSearchDown(g: Graph, blocked: string, ghost avoid: set<string>, x: string, visited: set<string>)
    returns (found: bool, visited': set<string>)
    requires Closed(g.Keys) && x in g && x !in avoid && x != ""
    requires DfsState(g, EpsWalk(blocked), avoid, x, visited) && visited <= g.Keys && "" !in visited
    ensures found ==> "" in Reach(g, EpsWalk(blocked), avoid, x)
    ensures !found ==> && DfsState(g, EpsWalk(blocked), avoid, x, visited')
                       && visited <= visited' <= g.Keys && "" !in visited'
                       && (x != blocked ==> DownLinks(g, x) <= visited')
    decreases g.Keys - avoid, 0
  {
    ghost var w := EpsWalk(blocked);
    found, visited' := false, visited;
    assert Prefix(x) in g && Suffix(x) in g;
    assert g.Keys - visited < g.Keys - avoid by {
      assert x in visited && x !in avoid;
    }
    if x != blocked {
      if g[x].fromPrefix > 0 {
        found, visited' := EpsSearch(g, blocked, Prefix(x), visited);
        ReachThroughNeighbour(g, w, avoid, x, visited, Prefix(x));
        if found {
          return;
        }
        DfsStep(g, w, avoid, x, visited, Prefix(x));
      }
      if g[x].toSuffix > 0 {
        ghost var before := visited';
        assert g.Keys - before < g.Keys - avoid by {
          assert x in before && x !in avoid;
        }
        found, visited' := EpsSearch(g, blocked, Suffix(x), visited');
        ReachThroughNeighbour(g, w, avoid, x, before, Suffix(x));
        if found {
          return;
        }
        DfsStep(g, w, avoid, x, before, Suffix(x));
      }
    }
  }

  /** The loop of `eps_search` over one parent list of `x`: searches on from
      every live parent until one finds the empty node. */
  method EpsSearchParents(g: Graph, blocked: string, parents: set<string>, side: Side,
                          ghost avoid: set<string>, ghost x: string, visited: set<string>)
    returns (found: bool, visited': set<string>)
    requires Closed(g.Keys) && x in g && x !in avoid && x != ""
    requires parents == ParentsOn(g, x, side)
    requires DfsState(g, EpsWalk(blocked), avoid, x, visited) && visited <= g.Keys && "" !in visited
    ensures found ==> "" in Reach(g, EpsWalk(blocked), avoid, x)
    ensures !found ==> && DfsState(g, EpsWalk(blocked), avoid, x, visited')
                       && visited <= visited' <= g.Keys && "" !in visited'
                       && forall y :: y in parents && Live(g, y, side) ==> y in visited'
    decreases g.Keys - avoid, 0
  {
    ghost var w := EpsWalk(blocked);
    visited' := visited;
    var todo := parents;
    while todo != {}
      invariant todo <= parents
      invariant DfsState(g, w, avoid, x, visited') && visited <= visited' <= g.Keys && "" !in visited'
      invariant forall y :: y in parents && y !in todo && Live(g, y, side) ==> y in visited'
      decreases todo
    {
      var y :| y in todo;
      todo := todo - {y};
      if Live(g, y, side) {
        ghost var before := visited';
        assert g.Keys - visited' < g.Keys - avoid by {
          assert x in visited' && x !in avoid;
        }
        found, visited' := EpsSearch(g, blocked, y, visited');
        ReachThroughNeighbour(g, w, avoid, x, before, y);
        if found {
          return;
        }
        DfsStep(g, w, avoid, x, before, y);
      }
    }
    found := false;
  }

  /** `reaches_eps` as a property: the empty node is reachable from `x`
      when `x`'s own links down are blocked. */
  ghost predicate EpsReachable(g: Graph, x: string)
  {
    "" in Reach(g, EpsWalk(x), {}, x)
  }

  /** `reaches_eps`: an `eps_search` from the node itself, blocking its own
      links down, with nothing visited yet. */
  method ReachesEps(g: Graph, x: string) returns (b: bool)
    requires Closed(g.Keys) && x in g
    ensures b == EpsReachable(g, x)
  {
    var visited;
    b, visited := EpsSearch(g, x, x, {});
  }

  /** The empty node reaches itself. */
  lemma EmptyReachesEps(g: Graph)
    requires "" in g
    ensures EpsReachable(g, "")
  {
    ReachStart(g, EpsWalk(""), {}, "");
  }

  // ---- upper_dfs / get_upper_component ----------------------------------

  /** `upper_dfs`: depth-first search that descends along live links only
      from strings longer than `minLevel` and always ascends to live
      parents. It marks exactly what it reaches. */
  method UpperDfs(g: Graph, minLevel: nat, x: string, visited: set<string>)
    returns (visited': set<string>)
    requires Closed(g.Keys) && x in g && visited <= g.Keys
    ensures visited' == visited + Reach(g, UpperWalk(minLevel), visited, x)
    decreases g.Keys - visited, 1
  {
    ghost var w := UpperWalk(minLevel);
    if x in visited {
      ReachFromVisited(g, w, visited, x);
      return visited;
    }
    visited' := visited + {x};
    ReachStart(g, w, visited, x);
    if |x| > minLevel {
      assert x != "" && Prefix(x) in g && Suffix(x) in g;
      if g[x].fromPrefix > 0 {
        visited' := UpperDfs(g, minLevel, Prefix(x), visited');
        DfsStep(g, w, visited, x, visited + {x}, Prefix(x));
      }
      if g[x].toSuffix > 0 {
        ghost var before := visited';
        visited' := UpperDfs(g, minLevel, Suffix(x), visited');
        DfsStep(g, w, visited, x, before, Suffix(x));
      }
    }
    ghost var afterDown := visited';
    visited' := UpperDfsParents(g, minLevel, ParentsOn(g, x, FromPrefix), FromPrefix, visited, x, visited');
    visited' := UpperDfsParents(g, minLevel, ParentsOn(g, x, ToSuffix), ToSuffix, visited, x, visited');
    assert Next(g, w, x) <= visited' by {
      assert |x| > minLevel ==> DownLinks(g, x) <= afterDown;
    }
    DfsDone(g, w, visited, x, visited');
  }

  /** The loop of `upper_dfs` over one parent list of `x`: searches on from
      every live parent. */
  method UpperDfsParents(g: Graph, minLevel: nat, parents: set<string>, side: Side,
                         ghost avoid: set<string>, ghost x: string, visited: set<string>)
    returns (visited': set<string>)
    requires Closed(g.Keys) && x in g && x !in avoid
    requires parents == ParentsOn(g, x, side)
    requires DfsState(g, UpperWalk(minLevel), avoid, x, visited) && visited <= g.Keys
    ensures DfsState(g, UpperWalk(minLevel), avoid, x, visited') && visited <= visited' <= g.Keys
    ensures forall y :: y in parents && Live(g, y, side) ==> y in visited'
    decreases g.Keys - avoid, 0
  {
    ghost var w := UpperWalk(minLevel);
    visited' := visited;
    var todo := parents;
    while todo != {}
      invariant todo <= parents
      invariant DfsState(g, w, avoid, x, visited') && visited <= visited' <= g.Keys
      invariant forall y :: y in parents && y !in todo && Live(g, y, side) ==> y in visited'
      decreases todo
    {
      var y :| y in todo;
      todo := todo - {y};
      if Live(g, y, side) {
        ghost var before := visited';
        assert g.Keys - visited' < g.Keys - avoid by {
          assert x in visited' && x !in avoid;
        }
        visited' := UpperDfs(g, minLevel, y, visited');
        DfsStep(g, w, avoid, x, before, y);
      }
    }
  }

  /** `get_upper_component`: everything an `upper_dfs` from `x` with a fresh
      visited set reaches, in ascending order. */
  method GetUpperComponent(g: Graph, x: string, level: nat) returns (comp: seq<string>)
    requires Closed(g.Keys) && x in g
    ensures StrictlySorted(comp)
    ensures forall y :: y in comp <==> y in Reach(g, UpperWalk(level), {}, x)
  {
    var visited := UpperDfs(g, level, x, {});
    comp := SortedFromSet(visited);
  }

  /** The upper search from a string at or above `minLevel` stays at or
      above it, and always visits its start. */
  lemma UpperReachLevels(g: Graph, minLevel: nat, avoid: set<string>, x: string)
    requires Closed(g.Keys) && x in g && x !in avoid && |x| >= minLevel
    ensures x in Reach(g, UpperWalk(minLevel), avoid, x)
    ensures forall y :: y in Reach(g, UpperWalk(minLevel), avoid, x) ==> |y| >= minLevel
  {
    var w := UpperWalk(minLevel);
    ReachStart(g, w, avoid, x);
    var high := set y | y in g && |y| >= minLevel;
    forall z | z in high && z !in avoid
      ensures Next(g, w, z) <= high
    {
      UpParentsLonger(g, z);
      if |z| > minLevel {
        DownLinksShorter(g, z);
      }
    }
    ReachWithin(g, w, avoid, x, high);
  }

  // ---- get_lower_component ----------------------------------------------

  /** The colour map after giving `color` to the strings of `s` that have
      none yet; existing colours are kept. */
  function Paint(used: map<string, int>, s: set<string>, color: int): map<string, int>
  {
    map z | z in used.Keys + s :: if z in used then used[z] else color
  }

  /** `cur` extends `base` by strings coloured `color`, and overwrites nothing. */
  ghost predicate PaintedOver(base: map<string, int>, cur: map<string, int>, color: int)
  {
    && base.Keys <= cur.Keys
    && forall z :: z in cur ==> cur[z] == if z in base then base[z] else color
  }

  /** `get_lower_component`: depth-first search through the live parents of
      the node's live prefix and suffix. Every string it reaches without
      crossing an already coloured string receives `color`; no existing
      colour is overwritten. */
  method GetLowerComponent(g: Graph, x: string, used: map<string, int>, color: int)
    returns (used': map<string, int>)
    requires Closed(g.Keys) && x in g && x != "" && used.Keys <= g.Keys
    ensures used' == Paint(used, Reach(g, LowerWalk, used.Keys, x), color)
    decreases g.Keys - used.Keys, 2
  {
    ghost var w := LowerWalk;
    if x in used {
      ReachFromVisited(g, w, used.Keys, x);
      return used;
    }
    used' := used[x := color];
    ReachStart(g, w, used.Keys, x);
    assert Prefix(x) in g && Suffix(x) in g;
    if g[x].fromPrefix > 0 {
      used' := GetLowerComponentVia(g, Prefix(x), used', color, used, x);
    }
    ghost var afterPrefix := used'.Keys;
    if g[x].toSuffix > 0 {
      used' := GetLowerComponentVia(g, Suffix(x), used', color, used, x);
    }
    assert Next(g, w, x) <= used'.Keys by {
      assert g[x].fromPrefix > 0 ==> UpParents(g, Prefix(x)) <= afterPrefix;
    }
    DfsDone(g, w, used.Keys, x, used'.Keys);
    PaintedOverIsPaint(used, used', Reach(g, w, used.Keys, x), color);
  }

  /** One branch of `get_lower_component` at `x`: colour on from the live
      suffix-parents and then the live prefix-parents of `link`, the
      prefix or the suffix of `x`. */
  method GetLowerComponentVia(g: Graph, link: string, used: map<string, int>, color: int,
                              ghost base: map<string, int>, ghost x: string)
    returns (used': map<string, int>)
    requires Closed(g.Keys) && x in g && x != "" && x !in base
    requires UpParents(g, link) <= Next(g, LowerWalk, x)
    requires DfsState(g, LowerWalk, base.Keys, x, used.Keys) && used.Keys <= g.Keys
    requires PaintedOver(base, used, color)
    ensures DfsState(g, LowerWalk, base.Keys, x, used'.Keys) && used.Keys <= used'.Keys <= g.Keys
    ensures PaintedOver(base, used', color)
    ensures UpParents(g, link) <= used'.Keys
    decreases g.Keys - base.Keys, 1
  {
    assert forall y :: y in SuffixParents(g, link) && Live(g, y, ToSuffix) ==> y in UpParents(g, link);
    assert forall y :: y in PrefixParents(g, link) && Live(g, y, FromPrefix) ==> y in UpParents(g, link);
    used' := GetLowerComponentParents(g, SuffixParents(g, link), ToSuffix, used, color, base, x);
    ghost var afterSuffixParents := used'.Keys;
    used' := GetLowerComponentParents(g, PrefixParents(g, link), FromPrefix, used', color, base, x);
    forall y | y in UpParents(g, link)
      ensures y in used'.Keys
    {
      if y in SuffixParents(g, link) && g[y].toSuffix > 0 {
        assert Live(g, y, ToSuffix) && y in afterSuffixParents;
      } else {
        assert y in PrefixParents(g, link) && Live(g, y, FromPrefix);
      }
    }
  }

  lemma PaintedOverIsPaint(base: map<string, int>, cur: map<string, int>, s: set<string>, color: int)
    requires PaintedOver(base, cur, color) && cur.Keys == base.Keys + s
    ensures cur == Paint(base, s, color)
  {
  }

  /** The loop of `get_lower_component` over one parent list of `x`'s prefix
      or suffix: colours on from every live parent. */
  method GetLowerComponentParents(g: Graph, parents: set<string>, side: Side, used: map<string, int>,
                                  color: int, ghost base: map<string, int>, ghost x: string)
    returns (used': map<string, int>)
    requires Closed(g.Keys) && x in g && x != "" && x !in base
    requires forall y :: y in parents ==> y in g && y != ""
    requires forall y :: y in parents && Live(g, y, side) ==> y in Next(g, LowerWalk, x)
    requires DfsState(g, LowerWalk, base.Keys, x, used.Keys) && used.Keys <= g.Keys
    requires PaintedOver(base, used, color)
    ensures DfsState(g, LowerWalk, base.Keys, x, used'.Keys) && used.Keys <= used'.Keys <= g.Keys
    ensures PaintedOver(base, used', color)
    ensures forall y :: y in parents && Live(g, y, side) ==> y in used'
    decreases g.Keys - base.Keys, 0
  {
    ghost var w := LowerWalk;
    used' := used;
    var todo := parents;
    while todo != {}
      invariant todo <= parents
      invariant DfsState(g, w, base.Keys, x, used'.Keys) && used.Keys <= used'.Keys <= g.Keys
      invariant PaintedOver(base, used', color)
      invariant forall y :: y in parents && y !in todo && Live(g, y, side) ==> y in used'
      decreases todo
    {
      var y :| y in todo;
      todo := todo - {y};
      if Live(g, y, side) {
        ghost var before := used';
        assert g.Keys - used'.Keys < g.Keys - base.Keys by {
          assert x in used'.Keys && x !in base.Keys;
        }
        used' := GetLowerComponent(g, y, used', color);
        DfsStep(g, w, base.Keys, x, before.Keys, y);
      }
    }
  }

  /** A link down is one character shorter than the node it leaves. */
  lemma DownLinksShorter(g: Graph, x: string)
    requires x in g && x != ""
    ensures forall y :: y in DownLinks(g, x) ==> y in g && |y| + 1 == |x|
  {
  }

  /** A parent is one character longer than its child. */
  lemma UpParentsLonger(g: Graph, x: string)
    ensures forall y :: y in UpParents(g, x) ==> y in g && |y| == |x| + 1
  {
  }

  /** The lower search stays in the layer it starts in. */
  lemma LowerReachSameLayer(g: Graph, avoid: set<string>, x: string)
    requires Closed(g.Keys) && x in g && x != ""
    ensures forall y :: y in Reach(g, LowerWalk, avoid, x) ==> |y| == |x|
  {
    var layer := set y | y in g && |y| == |x|;
    if x in avoid {
      ReachFromVisited(g, LowerWalk, avoid, x);
    } else {
      forall z | z in layer && z !in avoid
        ensures Next(g, LowerWalk, z) <= layer
      {
        if z != "" {
          UpParentsLonger(g, Prefix(z));
          UpParentsLonger(g, Suffix(z));
        }
      }
      ReachWithin(g, LowerWalk, avoid, x, layer);
    }
  }
}
