/** String helpers shared by the node store and the layered graph: the
    one-shorter prefix and suffix that link a node to the layer below, the
    substrings a node drags into the store, and the lexicographic order in
    which the graph walks a layer (the order of `std::string::operator<`,
    characters compared by their code). */
module Strings {

  /** The string one layer down on the prefix side: `s` without its last character. */
  function Prefix(s: string): string
    requires s != ""
  {
    s[..|s| - 1]
  }

  /** The string one layer down on the suffix side: `s` without its first character. */
  function Suffix(s: string): string
    requires s != ""
  {
    s[1..]
  }

  /** The strings a node for `s` needs stored beneath it: `s` itself
      and, recursively, everything its prefix and its suffix need. These
      are exactly the contiguous substrings of `s` (`SlicesAreSubstrings`,
      `SubstringsAreSlices`). */
  ghost function Substrings(s: string): set<string>
    decreases |s|
  {
    if s == "" then {""} else {s} + Substrings(Prefix(s)) + Substrings(Suffix(s))
  }

  /** Every slice of `s` is among its substrings. */
  lemma {:induction false} SlicesAreSubstrings(s: string, i: nat, j: nat)
    requires i <= j <= |s|
    ensures s[i..j] in Substrings(s)
    decreases |s|
  {
    if j < |s| {
      SlicesAreSubstrings(Prefix(s), i, j);
      assert Prefix(s)[i..j] == s[i..j];
    } else if i > 0 {
      SlicesAreSubstrings(Suffix(s), i - 1, j - 1);
      assert Suffix(s)[i - 1..j - 1] == s[i..j];
    } else {
      assert s[i..j] == s;
    }
  }

  /** Every substring of `s` is a slice of it. */
  lemma {:induction false} SubstringsAreSlices(s: string, x: string)
    requires x in Substrings(s)
    ensures exists i, j :: 0 <= i <= j <= |s| && x == s[i..j]
    decreases |s|
  {
    if x == s {
      assert x == s[0..|s|];
    } else if x in Substrings(Prefix(s)) {
      SubstringsAreSlices(Prefix(s), x);
      var i, j :| 0 <= i <= j <= |Prefix(s)| && x == Prefix(s)[i..j];
      assert x == s[i..j];
    } else {
      SubstringsAreSlices(Suffix(s), x);
      var i, j :| 0 <= i <= j <= |Suffix(s)| && x == Suffix(s)[i..j];
      assert x == s[i + 1..j + 1];
    }
  }

  /** A substring's substrings are substrings of the whole. */
  lemma {:induction false} SubstringsOfSubstring(s: string, t: string)
    requires t in Substrings(s)
    ensures Substrings(t) <= Substrings(s)
    decreases |s|
  {
    if t != s {
      if t in Substrings(Prefix(s)) {
        SubstringsOfSubstring(Prefix(s), t);
      } else {
        SubstringsOfSubstring(Suffix(s), t);
      }
    }
  }

  /** No substring is longer than the string it comes from. */
  lemma {:induction false} SubstringShorter(s: string, x: string)
    requires x in Substrings(s)
    ensures |x| <= |s|
    decreases |s|
  {
    if x != s {
      if x in Substrings(Prefix(s)) {
        SubstringShorter(Prefix(s), x);
      } else {
        SubstringShorter(Suffix(s), x);
      }
    }
  }

  /** Lexicographic order on strings: a proper prefix comes first,
      otherwise the first differing character decides. */
  predicate LexLess(a: string, b: string)
    decreases |a|
  {
    if a == "" then b != ""
    else b != "" && (a[0] < b[0] || (a[0] == b[0] && LexLess(a[1..], b[1..])))
  }

  lemma {:induction false} LexIrreflexive(a: string)
    ensures !LexLess(a, a)
    decreases |a|
  {
    if a != "" {
      LexIrreflexive(a[1..]);
    }
  }

  lemma {:induction false} LexTransitive(a: string, b: string, c: string)
    requires LexLess(a, b) && LexLess(b, c)
    ensures LexLess(a, c)
    decreases |a|
  {
    if a != "" && a[0] == b[0] && b[0] == c[0] {
      LexTransitive(a[1..], b[1..], c[1..]);
    }
  }

  lemma {:induction false} LexTotal(a: string, b: string)
    requires a != b
    ensures LexLess(a, b) || LexLess(b, a)
    decreases |a|
  {
    if a != "" && b != "" && a[0] == b[0] {
      assert a == [a[0]] + a[1..] && b == [b[0]] + b[1..];
      LexTotal(a[1..], b[1..]);
    }
  }

  /** Strictly ascending, hence also free of duplicates. */
  ghost predicate StrictlySorted(r: seq<string>)
  {
    forall i, j :: 0 <= i < j < |r| ==> LexLess(r[i], r[j])
  }

  /** The least element of a non-empty set of strings. */
  method MinOf(s: set<string>) returns (m: string)
    requires s != {}
    ensures m in s
    ensures forall y :: y in s ==> y == m || LexLess(m, y)
  {
    m :| m in s;
    var rest := s - {m};
    while rest != {}
      invariant m in s && rest <= s
      invariant forall y :: y in s && y !in rest ==> y == m || LexLess(m, y)
      decreases rest
    {
      var y :| y in rest;
      rest := rest - {y};
      if y != m && !LexLess(m, y) {
        LexTotal(m, y);
        forall z | z in s && z !in rest
          ensures z == y || LexLess(y, z)
        {
          if z != y && z != m {
            LexTransitive(y, m, z);
          }
        }
        m := y;
      }
    }
  }

  /** The elements of `s` in ascending order: what iterating a `std::set`
      yields, and what `std::sort` makes of a vector of distinct strings. */
  method SortedFromSet(s: set<string>) returns (r: seq<string>)
    ensures StrictlySorted(r)
    ensures forall x :: x in r <==> x in s
  {
    r := [];
    var rest := s;
    while rest != {}
      invariant rest <= s
      invariant forall x :: x in s <==> x in r || x in rest
      invariant forall x :: x in r ==> x !in rest
      invariant StrictlySorted(r)
      invariant forall x, y :: x in r && y in rest ==> LexLess(x, y)
      decreases rest
    {
      var m := MinOf(rest);
      r := r + [m];
      rest := rest - {m};
    }
  }
}
