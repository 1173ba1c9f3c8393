/** The node store (checker/Storage.cpp) and the in-place node updates of
    checker/Node.h.

    The store maps each string to its node. A node's prefix and suffix
    pointers are the nodes stored under `Prefix(s)` and `Suffix(s)`, and its
    parent lists are read off the key set (`PrefixParents`,
    `SuffixParents`), so registering a new node with its parents is the
    same act as inserting its key. */
module NodeStore {
  import opened Strings
  import opened Nodes

  class Storage {
    /** `nodes`: one node per distinct string. */
    var nodes: Graph

    /** Every link of every stored node can be followed. */
    ghost predicate Valid()
      reads this
    {
      Closed(nodes.Keys)
    }

    /** An empty store. */
    constructor ()
      ensures Valid() && nodes == map[]
    {
      nodes := map[];
    }

    /** `get_node`: the node for `s`, built on first use. Building a
        non-empty string's node first gets (and so, if need be, builds) its
        prefix node and then its suffix node, each one character shorter.
        The store ends up holding every substring of `s`; nodes already
        there are left as they were, and every new node is fresh. */
    method GetNode(s: string)
      requires Valid()
      modifies this
      ensures Valid() && s in nodes
      ensures nodes.Keys == old(nodes.Keys) + Substrings(s)
      ensures forall k :: k in old(nodes) ==> nodes[k] == old(nodes)[k]
      ensures forall k :: k in nodes && k !in old(nodes) ==> nodes[k] == Fresh
      decreases |s|
    {
      if s !in nodes {
        if s != "" {
          GetNode(Prefix(s));
          GetNode(Suffix(s));
        }
        ClosedInsert(nodes.Keys, s);
        nodes := nodes[s := Fresh];
      } else {
        ClosedHoldsSubstrings(nodes.Keys, s);
      }
    }

    /** `set_root`: mark the node of `s` as one of the caller's strings. */
    method SetRoot(s: string)
      requires Valid() && s in nodes
      modifies this
      ensures Valid()
      ensures nodes == old(nodes)[s := old(nodes)[s].(isRoot := true)]
    {
      nodes := nodes[s := nodes[s].(isRoot := true)];
      assert nodes.Keys == old(nodes).Keys;
    }

    /** `clear_edges`: both counters of `s` drop to zero; the root flag and
        every other node stay. */
    method ClearEdges(s: string)
      requires Valid() && s in nodes
      modifies this
      ensures Valid()
      ensures nodes == old(nodes)[s := old(nodes)[s].(fromPrefix := 0, toSuffix := 0)]
    {
      nodes := nodes[s := nodes[s].(fromPrefix := 0, toSuffix := 0)];
      assert nodes.Keys == old(nodes).Keys;
    }

    /** `add_prefix_edges(cnt)`: `cnt` more edges enter `s` from its prefix. */
    method AddPrefixEdges(s: string, cnt: nat)
      requires Valid() && s in nodes
      modifies this
      ensures Valid()
      ensures nodes == old(nodes)[s := old(nodes)[s].(fromPrefix := old(nodes)[s].fromPrefix + cnt)]
    {
      nodes := nodes[s := nodes[s].(fromPrefix := nodes[s].fromPrefix + cnt)];
      assert nodes.Keys == old(nodes).Keys;
    }

    /** `add_suffix_edges(cnt)`: `cnt` more edges leave `s` to its suffix. */
    method AddSuffixEdges(s: string, cnt: nat)
      requires Valid() && s in nodes
      modifies this
      ensures Valid()
      ensures nodes == old(nodes)[s := old(nodes)[s].(toSuffix := old(nodes)[s].toSuffix + cnt)]
    {
      nodes := nodes[s := nodes[s].(toSuffix := nodes[s].toSuffix + cnt)];
      assert nodes.Keys == old(nodes).Keys;
    }

    /** `collapse(n)`: clamp `n` to the matched pairs at `s`, take them off
        `s` and push them onto the prefix node's outgoing and the suffix
        node's incoming counter. */
    method Collapse(s: string, n: nat)
      requires Valid() && s in nodes && s != ""
      modifies this
      ensures Valid()
      ensures nodes == Nodes.Collapse(old(nodes), s, n)
    {
      assert Prefix(s) in nodes;
      nodes := Nodes.Collapse(nodes, s, n);
    }

    /** `collapse_all`. */
    method CollapseAll(s: string)
      requires Valid() && s in nodes && s != ""
      modifies this
      ensures Valid()
      ensures nodes == Nodes.CollapseAll(old(nodes), s)
    {
      Collapse(s, Min(nodes[s].fromPrefix, nodes[s].toSuffix));
    }

    /** `collapse_all_but_one`. */
    method CollapseAllButOne(s: string)
      requires Valid() && s in nodes && s != ""
      modifies this
      ensures Valid()
      ensures nodes == Nodes.CollapseAllButOne(old(nodes), s)
    {
      Collapse(s, SizeDecrement(Min(nodes[s].fromPrefix, nodes[s].toSuffix)));
    }
  }
}
