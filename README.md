# Hierarchical substring graph of the CA hypothesis checker

The checker builds a layered graph over the substrings of a set of
strings. Every stored string has a node. Layer `i` holds the strings of
length `i`. A node's prefix link points to its string without the last
character, and its suffix link to its string without the first character.

A node carries two edge counters:
- `from_prefix`: edges entering it from its prefix;
- `to_suffix`: edges leaving it towards its suffix.

It also carries a root flag. A trial proceeds as follows:
1. It adds a doubled cycle through the input strings (`add_cycle`, a series of `add_path` calls).
2. It walks the layers from the top down. At each layer it first checks that every upper weak component lies within one lower weak component (`check_weak_components`). It then collapses matched pairs of edges one layer down (`collapse_layer`).
3. Finally it clears all edges (`clear`).

The model keeps the source's own structure:
- **Store.** It is a `class Storage` whose field `nodes: map<string, Node>` is updated in place by `get_node` and the node mutators.
- **Node.** Its mutable part is the value `Node(fromPrefix, toSuffix, isRoot)`.
- **Links.** The pointer links become functions of the key: `Prefix(s)` and `Suffix(s)` point down, `PrefixParents` and `SuffixParents` point up. So the store's shape invariant is that its key set is closed under `Prefix` and `Suffix` (`Closed`).
- **Graph.** The graph object is `class HierarchicalGraph`. It holds the store, the sorted `layers` and `maxLayer`.
- **Specifications.** Each mutating method is proved equal to a function of the old store:
  - `PathAdded` for `add_path`;
  - `CycleAdded` for `add_cycle`;
  - `Cleared` for `clear`;
  - `CollapseNodes` for `collapse_layer`.

  The properties are then proved about these functions.
- **Searches.** The three depth-first searches of a node are recursive methods over the store's value:
  - `eps_search` becomes `EpsSearch`;
  - `upper_dfs` becomes `UpperDfs`;
  - `get_lower_component` becomes `GetLowerComponent`.

  `Reach` is the set of strings reachable along a search's steps (`Next`) without passing an already visited string. `UpperDfs` and `GetLowerComponent` are proved to visit exactly `Reach`. `EpsSearch` is proved to return whether `""` is in `Reach`, and when it returns false it has visited exactly `Reach`.
- **Check result.** `check_weak_components` is proved to return exactly `WeakComponentsAgree`. That predicate says every upper component of the layer is single-coloured under the lower colouring.

Modules:
- `Strings`: prefix, suffix, substrings, lexicographic order, sorting.
- `Nodes`: the node value, closure, `collapse` and its variants, edge totals.
- `NodeStore`: `Storage`.
- `Overlaps`: `overlap`.
- `Paths`: what `add_path`, `add_cycle` and `clear` do to the store.
- `Traversals`: the three searches.
- `Collapsing`: `collapse_layer`.
- `Components`: upper and lower components.
- `Hierarchy`: `HierarchicalGraph` and the loops of its methods.

## Model

| member | source | states |
|---|---|---|
| NodeStore.Storage.constructor | checker/Storage.h:11-22 | a new store is empty and closed |
| NodeStore.Storage.GetNode | checker/Storage.cpp:3-12 | afterwards `s` is stored. The keys grow by exactly the substrings of `s`: its prefix and suffix nodes are built first, recursively. Existing nodes are untouched, new nodes are fresh, and the store stays closed |
| NodeStore.Storage.SetRoot | checker/Node.h:93-95 | only the root flag of `s` changes, to true |
| NodeStore.Storage.ClearEdges | checker/Node.h:37-40 | both counters of `s` become 0; the flag and every other node are kept |
| NodeStore.Storage.AddPrefixEdges | checker/Node.h:43-45 | only `fromPrefix` of `s` grows, by `cnt` |
| NodeStore.Storage.AddSuffixEdges | checker/Node.h:48-50 | only `toSuffix` of `s` grows, by `cnt` |
| NodeStore.Storage.Collapse | checker/Node.h:112-119 | the store becomes `Collapse(old, s, n)` and stays closed |
| NodeStore.Storage.CollapseAll | checker/Node.h:53-55 | the store becomes `CollapseAll(old, s)` |
| NodeStore.Storage.CollapseAllButOne | checker/Node.h:58-60 | the store becomes `CollapseAllButOne(old, s)` |
| Nodes.ClosedHoldsSubstrings | checker/Node.cpp:9-15 | a closed store holding `s` holds every substring of `s` |
| Nodes.ClosedInsert | checker/Node.cpp:9-15 | adding a string whose prefix and suffix are stored keeps the store closed |
| Nodes.ScanParents | checker/Node.h:78-90 | the scan returns true iff the node is a root, or some prefix-parent has `fromPrefix > 0`, or some suffix-parent has `toSuffix > 0` |
| Nodes.Collapse | checker/Node.h:112-119 | collapsing creates and removes no node |
| Nodes.CollapseEffect | checker/Node.h:112-119 | with `m = min(n, fromPrefix, toSuffix)`: `s` loses `m` on both counters, its prefix gains `m` on `toSuffix`, its suffix gains `m` on `fromPrefix`, and no other counter or root flag changes |
| Nodes.CollapseAllEmpties | checker/Node.h:53-55 | afterwards one counter of the node is 0 and both dropped by their minimum |
| Nodes.CollapseAllButOneKeepsOne | checker/Node.h:58-60 | with at least one matched pair exactly one is kept. With none, the wrapped `0UL - 1` is clamped back and the store is unchanged |
| Nodes.CollapseConserves | checker/Node.h:112-119 | the sum of all counters in the store is unchanged |
| Nodes.IsBalanced | checker/Node.h:63-65 | a node is balanced iff its two counters are equal |
| Nodes.CollapseKeepsBalance | checker/Node.h:112-119 | collapsing keeps a node balanced exactly when it was balanced |
| Nodes.SizeDecrement | checker/Node.h:59 | on a value a `size_t` holds, the result is a `size_t` value and the predecessor modulo 2^64, so 0 wraps to `SIZE_MAX` |
| Strings.SlicesAreSubstrings | checker/Node.cpp:9-11 | every contiguous slice of `s` is among the strings that building `s` builds |
| Strings.SubstringsAreSlices | checker/Node.cpp:9-11 | conversely, every string built for `s` is a slice of `s` |
| Strings.SubstringsOfSubstring | checker/Node.cpp:9-11 | building a substring builds nothing new |
| Strings.SubstringShorter | checker/Node.cpp:9-11 | no built string is longer than `s` |
| Strings.LexIrreflexive | checker/HierarchicalGraph.cpp:7-9 | the layer order is irreflexive |
| Strings.LexTransitive | checker/HierarchicalGraph.cpp:7-9 | the layer order is transitive |
| Strings.LexTotal | checker/HierarchicalGraph.cpp:7-9 | any two distinct strings are ordered one way or the other |
| Strings.MinOf | checker/HierarchicalGraph.cpp:37-39 | returns a member of the set that is below every other member |
| Strings.SortedFromSet | checker/HierarchicalGraph.cpp:37-39 | returns exactly the set's strings, strictly ascending |
| Overlaps.OverlapUpTo | checker/HierarchicalGraph.cpp:13-17 | the longest overlap of at most `i` characters: it is an overlap, and no longer one up to `i` is |
| Overlaps.LongestOverlap | checker/HierarchicalGraph.cpp:11-19 | the result is an overlap and no longer overlap exists |
| Overlaps.LongestOverlapUnique | checker/HierarchicalGraph.cpp:11-19 | any longest overlap equals `LongestOverlap` |
| Overlaps.LongestOverlapSelf | checker/HierarchicalGraph.cpp:11-19 | a string's overlap with itself is the whole string |
| Overlaps.Overlap | checker/HierarchicalGraph.cpp:11-19 | the loop returns the longest suffix of `a` that is a prefix of `b`, taken from `b`, and `""` when none |
| Traversals.NextInGraph | checker/Node.cpp:29-62 | a search only steps to stored strings |
| Traversals.ReachFromVisited | checker/Node.cpp:30-32 | a search started at a visited string reaches nothing |
| Traversals.ReachStep | checker/Node.cpp:38-60 | one more step from a reached string reaches its unvisited neighbour |
| Traversals.WalkSnoc | checker/Node.cpp:38-60 | a walk extended by a neighbour of its end is a walk |
| Traversals.ReachThroughNeighbour | checker/Node.cpp:38-60 | a recursive search from a neighbour reaches nothing the search from the node would not |
| Traversals.WalkCons | checker/Node.cpp:38-60 | a walk from a neighbour, prefixed by the node, is a walk from the node |
| Traversals.ReachWithin | checker/Node.cpp:29-62 | a set holding the start and closed under steps holds all that is reached |
| Traversals.DfsStep | checker/Node.cpp:38-60 | one recursive call keeps the search invariant and leaves the neighbour visited |
| Traversals.DfsDone | checker/Node.cpp:29-62 | once all neighbours are visited, the search has visited exactly what it reaches |
| Traversals.EpsSearch | checker/Node.cpp:29-62 | returns true iff the empty node is reachable. When false, the visited set grows by exactly the reachable strings |
| Traversals.EpsSearchDown | checker/Node.cpp:38-47 | unless at the blocked node, the live prefix and then the live suffix are searched, keeping the invariant |
| Traversals.EpsSearchParents | checker/Node.cpp:49-60 | each live parent on one side is searched until one finds the empty node |
| Traversals.ReachesEps | checker/Node.cpp:64-67 | `reaches_eps` returns exactly `EpsReachable`: the empty node is reachable with the node's own links down blocked |
| Traversals.EmptyReachesEps | checker/Node.cpp:33-35 | the empty node reaches itself |
| Traversals.UpperDfs | checker/Node.cpp:107-131 | the visited set grows by exactly the strings the upper search reaches |
| Traversals.UpperDfsParents | checker/Node.cpp:121-130 | every live parent on one side ends up visited, keeping the invariant |
| Traversals.GetUpperComponent | checker/Node.cpp:133-137 | the component is exactly what the search reaches from a fresh visited set, in ascending order |
| Traversals.UpperReachLevels | checker/Node.cpp:112-119 | the upper search from `x` visits `x` and never goes below `minLevel` |
| Traversals.GetLowerComponent | checker/Node.cpp:69-105 | the colour map becomes `Paint(used, Reach(...), color)`: every reached uncoloured string gets `color`, and no colour is overwritten |
| Traversals.GetLowerComponentVia | checker/Node.cpp:77-91 | the live suffix-parents and then the live prefix-parents of the link all end up coloured, keeping the invariant |
| Traversals.GetLowerComponentParents | checker/Node.cpp:79-90 | every live parent of the list ends up coloured |
| Traversals.PaintedOverIsPaint | checker/Node.cpp:69-76 | a map that only added `color` at the reached strings is `Paint` |
| Traversals.DownLinksShorter | checker/Node.cpp:9-11 | a link down is one character shorter |
| Traversals.UpParentsLonger | checker/Node.cpp:13-14 | a parent is one character longer |
| Traversals.LowerReachSameLayer | checker/Node.cpp:77-104 | the lower search stays in the layer it starts in |
| Components.KeepLength | checker/HierarchicalGraph.cpp:87-88 | keeps exactly the strings of length `l` |
| Components.UpperFromAppends | checker/HierarchicalGraph.cpp:81-90 | the order-of-discovery fold appends the upper components |
| Components.UpperComponentsShape | checker/HierarchicalGraph.cpp:81-90 | every upper component is non-empty and holds stored layer-`l` strings |
| Components.InSomeCons | checker/HierarchicalGraph.cpp:89 | a string in a later component is in some component |
| Components.UpperComponentsCover | checker/HierarchicalGraph.cpp:81-90 | every seed not visited beforehand lies in some upper component |
| Components.LowerColouringKeeps | checker/HierarchicalGraph.cpp:94-100 | the colouring never overwrites a colour |
| Components.LowerColouringCovers | checker/HierarchicalGraph.cpp:94-100 | every seed is coloured |
| Components.LowerColouringLayer | checker/HierarchicalGraph.cpp:94-100 | only stored layer-`l` strings are coloured |
| Components.LowerColouringFresh | checker/HierarchicalGraph.cpp:94-100 | each new component gets a colour not used before (`cnt++`) |
| Components.ColourOf | checker/HierarchicalGraph.cpp:103-104 | the colour `lower_components[s]` reads: the stored colour, or 0, which `operator[]` inserts for a missing key |
| Components.AdjacentSameIsSingle | checker/HierarchicalGraph.cpp:101-107 | neighbours agreeing on colour iff the whole component is single-coloured |
| Collapsing.Retains | checker/HierarchicalGraph.cpp:69 | the retention rule: the node is balanced, has parents and cannot reach the empty node |
| Collapsing.CollapseStep | checker/HierarchicalGraph.cpp:69-73 | one visit creates and removes no node |
| Collapsing.CollapseNodes | checker/HierarchicalGraph.cpp:68-74 | a layer pass creates and removes no node |
| Collapsing.SortedDistinct | checker/HierarchicalGraph.cpp:37-39 | a sorted layer has no repeated string |
| Collapsing.CollapseStepEffect | checker/HierarchicalGraph.cpp:69-73 | a visit touches only the node, its prefix and its suffix, and no root flag. It leaves at most one pair, and exactly one iff the retention rule held and a pair existed. The total is unchanged |
| Collapsing.CollapseNodesConserves | checker/HierarchicalGraph.cpp:66-75 | a layer pass keeps the total edge count |
| Collapsing.CollapseNodesFrame | checker/HierarchicalGraph.cpp:66-75 | a pass over layer `l` changes counters only in layers `l` and `l - 1`, and no root flag |
| Collapsing.CollapseNodesVisitedOnce | checker/HierarchicalGraph.cpp:68-74 | a node's counters are final after its own visit |
| Collapsing.CollapseNodesLeavesAtMostOne | checker/HierarchicalGraph.cpp:66-75 | after the pass each node of the layer keeps at most one pair. It keeps one iff the rule held when it was visited and it had a pair then |
| Collapsing.LayerLeavesAtMostOne | checker/HierarchicalGraph.cpp:66-75 | the same for every node of a sorted layer, whose strings are distinct because the layer is strictly sorted |
| Collapsing.CollapseLayersDown | checker/HierarchicalGraph.cpp:66-75 | collapsing the layers from `j` down to 1 keeps every node and its root flag |
| Paths.SuffixesLongerMembers | checker/HierarchicalGraph.cpp:44-46 | the first loop visits exactly the suffixes of `a` longer than the overlap |
| Paths.PrefixesLongerMembers | checker/HierarchicalGraph.cpp:47-49 | the second loop visits exactly the prefixes of `b` longer than the overlap |
| Paths.SuffixesLongerCount | checker/HierarchicalGraph.cpp:44-46 | there are `|a| - k` of them |
| Paths.PrefixesLongerCount | checker/HierarchicalGraph.cpp:47-49 | there are `|b| - k` of them |
| Paths.PathStored | checker/HierarchicalGraph.cpp:42-50 | every node a path between stored strings asks for is already stored |
| Paths.PathAddedStored | checker/HierarchicalGraph.cpp:42-50 | such a path creates no node |
| Paths.PathAddedRoots | checker/HierarchicalGraph.cpp:42-50 | a path keeps every node and its root flag |
| Paths.PathAddedSelf | checker/HierarchicalGraph.cpp:42-50 | `add_path(a, a)` changes nothing, whether or not `a` is stored |
| Paths.SuffixesAreSubstrings | checker/HierarchicalGraph.cpp:44-46 | the suffixes walked are substrings of `a` |
| Paths.PrefixesAreSubstrings | checker/HierarchicalGraph.cpp:47-49 | the prefixes walked are substrings of `b` |
| Paths.SumAddEdges | checker/Node.h:43-50 | adding two edges per listed key adds two to the sum per key on each side |
| Paths.PathAddedTotal | checker/HierarchicalGraph.cpp:42-50 | between stored strings the total grows by `2(|a| - k) + 2(|b| - k)`, with `k` the longest overlap |
| Paths.PathAddedOnStored | checker/HierarchicalGraph.cpp:42-50 | between stored strings a path only adds the walk's edges |
| Paths.TotalAddEdges | checker/Node.h:43-50 | edges added at stored strings raise the total by two per string |
| Paths.ExtendBy | checker/Storage.cpp:3-12 | the store after `get_node` is the old one extended by fresh nodes |
| Paths.DescendOneAddEdges | checker/HierarchicalGraph.cpp:45 | one step of the first loop adds two edges at `t` to the edges already added |
| Paths.ClimbOneAddEdges | checker/HierarchicalGraph.cpp:48 | one step of the second loop adds two edges at `t` to the edges already added |
| Paths.ExtendWithin | checker/HierarchicalGraph.cpp:44-49 | later steps of a walk build no node the first step did not build |
| Paths.DescendIsAddEdges | checker/HierarchicalGraph.cpp:44-46 | the first loop builds the substrings of `a` and adds two edges at each suffix longer than the overlap |
| Paths.ClimbIsAddEdges | checker/HierarchicalGraph.cpp:47-49 | the second loop builds the substrings of `b` and adds two edges at each prefix longer than the overlap |
| Paths.PathAddedIsWalk | checker/HierarchicalGraph.cpp:42-50 | the two loops run in order equal `PathAdded` |
| Paths.CycleAddedStored | checker/HierarchicalGraph.cpp:52-56 | a cycle through stored strings creates no node |
| Paths.CycleAddedSingle | checker/HierarchicalGraph.cpp:52-56 | a one-element cycle changes nothing, whether or not its string is stored |
| Paths.CycleAddedRoots | checker/HierarchicalGraph.cpp:52-56 | a cycle through stored strings keeps every node and its root flag |
| Paths.CycleAddedEmpty | checker/HierarchicalGraph.cpp:52-56 | an empty cycle changes nothing |
| Paths.ClearedEffect | checker/HierarchicalGraph.cpp:58-64 | cleared nodes have no edges and keep their flag; others are unchanged |
| Paths.ClearedStep | checker/HierarchicalGraph.cpp:60-62 | clearing one more node is one `clear_edges` |
| Paths.ClearedTwice | checker/HierarchicalGraph.cpp:59-63 | clearing one layer after another clears their union |
| Paths.ClearedIdempotent | checker/HierarchicalGraph.cpp:58-64 | clearing twice equals clearing once |
| Paths.SumWeightsZero | checker/HierarchicalGraph.cpp:58-64 | a sum over edgeless nodes is zero |
| Paths.ClearedAllTotal | checker/HierarchicalGraph.cpp:58-64 | clearing every node leaves no edge |
| Paths.ClearedForgetsEdges | checker/HierarchicalGraph.cpp:58-64 | once all nodes are cleared, stores with the same nodes and roots are equal |
| Hierarchy.MaxLength | checker/HierarchicalGraph.cpp:22-28 | the longest input length: it bounds all inputs and one input attains it; 0 with no input |
| Hierarchy.AllSubstringsBounded | checker/HierarchicalGraph.cpp:25-28 | no built string is longer than the longest input |
| Hierarchy.RootsAddedAt | checker/HierarchicalGraph.cpp:25-28 | after the first loop a string is stored iff it was stored before or is a substring of an input. Its node is the old or fresh node, marked root iff it is an input |
| Hierarchy.FlattenHolds | checker/HierarchicalGraph.cpp:59-60 | every string of every layer is visited by `clear` |
| Hierarchy.TrialEdges | checker/main.cpp:83-97 | a trial's `add_cycle` through input strings and its collapses from the top layer down build no node |
| Hierarchy.TrialForgetsEdges | checker/main.cpp:83-99 | when every node is listed in the layers, the `clear` that ends a trial leaves exactly the store `clear` leaves without the trial: no edges, the same nodes and roots |
| Hierarchy.UpperPart | checker/HierarchicalGraph.cpp:85-88 | the component is the reached set, and the kept part is its layer-`l` strings |
| Hierarchy.SetsOfAt | checker/HierarchicalGraph.cpp:89 | the components' sets keep length and position |
| Hierarchy.SetsOfSingleColoured | checker/HierarchicalGraph.cpp:101-107 | non-empty sets mean non-empty components, and single-colouring agrees between them |
| Hierarchy.CollectUpperComponents | checker/HierarchicalGraph.cpp:78-90 | the collected components are `UpperComponents(g, l, seeds, {})` in discovery order |
| Hierarchy.ColourLowerComponents | checker/HierarchicalGraph.cpp:91-100 | the colour map is `LowerColouring(g, seeds, {}, 0)` |
| Hierarchy.AllAdjacentSame | checker/HierarchicalGraph.cpp:101-109 | returns true iff every component is single-coloured |
| Hierarchy.DescendStep | checker/HierarchicalGraph.cpp:45 | the store becomes `DescendOne(old, t)` |
| Hierarchy.ClimbStep | checker/HierarchicalGraph.cpp:48 | the store becomes `ClimbOne(old, t)` |
| Hierarchy.BuiltStore | checker/HierarchicalGraph.cpp:21-28 | the constructed store holds `""` and every substring of an input. All counters are 0, a node is a root iff it is an input, and no string exceeds the longest input |
| Hierarchy.DescendSuffixes | checker/HierarchicalGraph.cpp:44-46 | the first loop leaves the store at `Descend(old, a, k)` |
| Hierarchy.ClimbPrefixes | checker/HierarchicalGraph.cpp:47-49 | the second loop leaves the store at `Climb(old, b, k)` |
| Hierarchy.MaxLengthStep | checker/HierarchicalGraph.cpp:27 | one more string updates the maximum by `std::max` |
| Hierarchy.RootStep | checker/HierarchicalGraph.cpp:26 | the store becomes `RootOne(old, s)` |
| Hierarchy.AddRoots | checker/HierarchicalGraph.cpp:25-28 | the store becomes `RootsAdded(old, strings)` and the result is the longest length |
| Hierarchy.LayersOfStore | checker/HierarchicalGraph.cpp:32-35 | every stored string is in the layer of its length |
| Hierarchy.BuildLayers | checker/HierarchicalGraph.cpp:32-39 | `maxLen + 1` layers, each strictly ascending and holding exactly the stored strings of its length |
| Hierarchy.ClearLayer | checker/HierarchicalGraph.cpp:60-62 | the store becomes `Cleared(old, layer)` |
| Hierarchy.HierarchicalGraph.constructor | checker/HierarchicalGraph.cpp:21-40 | the store holds `""` and all substrings of the inputs. No node has edges, roots are exactly the inputs, `maxLayer` is the longest length, and the layers are sorted and list every node |
| Hierarchy.HierarchicalGraph.AddPath | checker/HierarchicalGraph.cpp:42-50 | the store becomes `PathAdded(old, a, b)` |
| Hierarchy.HierarchicalGraph.AddCycle | checker/HierarchicalGraph.cpp:52-56 | the store becomes `CycleAdded(old, es)`: a path from each element to the next, and from the last to the first |
| Hierarchy.HierarchicalGraph.Clear | checker/HierarchicalGraph.cpp:58-64 | every layered node loses its edges. When the layers list every node, no edge is left |
| Hierarchy.HierarchicalGraph.CollapseLayer | checker/HierarchicalGraph.cpp:66-75 | the store becomes `CollapseNodes(old, layers[l])`, and each node of the layer is left with at most one matched pair |
| Hierarchy.HierarchicalGraph.CheckWeakComponents | checker/HierarchicalGraph.cpp:77-110 | returns true iff every upper component of layer `l` is single-coloured by the lower colouring |

## Left out

- Console output (`print`, the debug output of `main.cpp`), command-line handling, random data sets and the trial driver of `checker/main.cpp` are not modelled. Only what one trial whose checks all pass does to the store is stated (`TrialForgetsEdges`).
- Pointers, `new`/`delete` and the store's destructor are not modelled. A node is named by its string, and the parent vectors are derived from the key set. So the order in which parents are visited is not modelled: the searches take them in any order, and every property proved holds for all orders.
- `size_t` wrap-around: lengths and counters are unbounded. The one wrap the source relies on, `0UL - 1` in `collapse_all_but_one`, is modelled explicitly (`SizeDecrement`).
- `add_prefix_edges`/`add_suffix_edges` take an `int cnt`. The model takes a `nat`, because every caller passes 2, and `int` overflow is not modelled.
- Hierarchy.HierarchicalGraph.CollapseLayer: requires `1 <= l`. Layer 0 is the empty node, whose null prefix and suffix `collapse` would dereference. The trial driver only visits layers `max_layer` down to 1.
- Hierarchy.HierarchicalGraph.CheckWeakComponents: requires `1 <= l`, for the same reason. A lower search from the empty node dereferences its null links whenever it carries an edge.
- Traversals.GetLowerComponent: requires `x != ""`. It is only called on nodes of a layer `l >= 1`, and the search stays in that layer (`LowerReachSameLayer`).
- `std::sort` of a layer is modelled by `SortedFromSet`, a selection of the least remaining string. The std::map iteration order behind the unsorted layer is not modelled, because sorting distinct strings erases it.
- Characters are compared by code point in the layer order. Each Dafny character stands for one byte of the `std::string`, and `std::string` compares bytes as unsigned values (`std::char_traits<char>`), so the orders agree.
- The loop bodies of `add_path` and the constructor are separate methods (`DescendStep`, `ClimbStep`, `RootStep`) so each loop carries one small invariant. They do the same steps in the same order.
- `clear` only clears the nodes listed in `layers`. Nodes that `add_path` builds after construction are not listed, and they keep their edges in the model as in the source. `Clear` proves that no edge is left when every node is listed.
