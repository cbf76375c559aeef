/** What `search` promises on a tree that insertion has kept ordered and
    anchored: every stored key is found, and when keys are distinct the
    value found is the one stored under the key. */
module SearchProofs {
  import opened Wrappers
  import opened SortedSeq
  import opened Flat
  import opened Nodes
  import NodeOps

  /** A key stored under a child left of the routed one is also stored
      under the next child: it is at most the separator between the two and
      at least it, so it is the separator, the next child's first key. */
  lemma KeyMovesRight(left: Node, right: Node, sep: int, key: int)
    requires Under(left, sep) && sep <= key
    requires |Entries(right)| > 0 && Entries(right)[0].key == sep
    requires key in KeysOf(Entries(left))
    ensures key in KeysOf(Entries(right))
  {
    var p :| 0 <= p < |Entries(left)| && KeysOf(Entries(left))[p] == key;
    assert Entries(left)[p] in Entries(left);
    UnderEntries(left, sep);
    assert KeysOf(Entries(right))[0] == sep;
  }

  /** The key of a pair stored under an ordered, anchored internal node is
      stored under the child that routing picks. */
  lemma {:induction false} RoutedChildHasKey(ks: seq<int>, cs: seq<Node>, key: int, j: nat)
    requires WellFormed(Internal(ks, cs)) && Ordered(Internal(ks, cs)) && Anchored(Internal(ks, cs))
    requires j < |cs| && key in KeysOf(Entries(cs[j]))
    ensures key in KeysOf(Entries(cs[UpperBound(ks, key)]))
    decreases UpperBound(ks, key) - j
  {
    var i := UpperBound(ks, key);
    if j < i {
      LeftOfRoute(ks, cs, key, j);
      RoutedChildHasKey(ks, cs, key, j + 1);
    } else if j > i {
      RightOfRoute(ks, cs[j], key, j - 1);
      assert false;
    }
  }

  /** One step of `RoutedChildHasKey` towards the routed child. */
  lemma LeftOfRoute(ks: seq<int>, cs: seq<Node>, key: int, j: nat)
    requires WellFormed(Internal(ks, cs)) && Ordered(Internal(ks, cs)) && Anchored(Internal(ks, cs))
    requires j < UpperBound(ks, key) && key in KeysOf(Entries(cs[j]))
    ensures key in KeysOf(Entries(cs[j + 1]))
  {
    KeyMovesRight(cs[j], cs[j + 1], ks[j], key);
  }

  /** A child right of the routed one (its lower bound `ks[m]` is a
      separator at or after the stopping index) holds no pair with the key. */
  lemma RightOfRoute(ks: seq<int>, child: Node, key: int, m: nat)
    requires Sorted(ks) && UpperBound(ks, key) <= m < |ks|
    requires Over(child, ks[m])
    ensures key !in KeysOf(Entries(child))
  {
    AboveUpperBound(ks, key, m);
    KeyNotBelowBound(child, ks[m], key);
  }

  /** A node whose keys are all at least `b` holds no pair with a key below
      `b`. */
  lemma KeyNotBelowBound(n: Node, b: int, key: int)
    requires Over(n, b) && key < b
    ensures key !in KeysOf(Entries(n))
  {
    OverEntries(n, b);
    forall p | 0 <= p < |Entries(n)|
      ensures KeysOf(Entries(n))[p] != key
    {
      assert Entries(n)[p] in Entries(n);
    }
  }

  /** `search` finds every key stored in an ordered, anchored node, even
      when the key is stored more than once. */
  lemma {:induction false} SearchComplete(n: Node, key: int)
    requires WellFormed(n) && Ordered(n) && Anchored(n)
    requires key in KeysOf(Entries(n))
    ensures NodeOps.Search(n, key).Some?
    decreases n
  {
    match n
    case Leaf(ks, vs) =>
      LeafKeys(ks, vs);
    case Internal(ks, cs) =>
      var p :| 0 <= p < |Entries(n)| && KeysOf(Entries(n))[p] == key;
      EntriesOfChildrenMember(cs, Entries(n)[p]);
      var j :| 0 <= j < |cs| && Entries(n)[p] in Entries(cs[j]);
      var q :| 0 <= q < |Entries(cs[j])| && Entries(cs[j])[q] == Entries(n)[p];
      assert KeysOf(Entries(cs[j]))[q] == key;
      RoutedChildHasKey(ks, cs, key, j);
      SearchComplete(cs[UpperBound(ks, key)], key);
  }

  lemma LeafKeys(ks: seq<int>, vs: seq<string>)
    requires |ks| == |vs|
    ensures KeysOf(Entries(Leaf(ks, vs))) == ks
  {
  }

  /** With distinct keys, `search` on an ordered, anchored node is the
      lookup of the key in the node's pairs: it finds exactly the stored
      keys, each with its value. */
  lemma SearchIsLookup(n: Node, key: int)
    requires WellFormed(n) && Ordered(n) && Anchored(n)
    requires DistinctKeys(Entries(n))
    ensures NodeOps.Search(n, key) == Lookup(Entries(n), key)
  {
    var r := NodeOps.Search(n, key);
    if r.Some? {
      LookupDistinct(Entries(n), Entry(key, r.value));
    } else if key in KeysOf(Entries(n)) {
      SearchComplete(n, key);
    }
  }
}
