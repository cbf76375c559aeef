/** Insertion seen through the flat view: on an ordered node, `Node.insert`
    does to the leaf-order pair list exactly what a stable sorted insertion
    does, whether or not anything splits on the way. */
module EntriesProofs {
  import opened Wrappers
  import opened SortedSeq
  import opened Flat
  import opened Nodes
  import LeafNode
  import InternalNode
  import NodeOps

  /** Routing with the upper-bound scan separates the pairs of an ordered
      internal node: children left of the routed one hold only keys at most
      `key`, children right of it only keys greater than `key`. */
  lemma RouteSplitsEntries(ks: seq<int>, cs: seq<Node>, key: int)
    requires WellFormed(Internal(ks, cs)) && Ordered(Internal(ks, cs))
    ensures var i := UpperBound(ks, key);
            && (forall x :: x in EntriesOfChildren(cs[..i]) ==> x.key <= key)
            && (forall x :: x in EntriesOfChildren(cs[i + 1..]) ==> key < x.key)
  {
    var i := UpperBound(ks, key);
    LeftOfRouteUnder(ks, cs, key);
    ChildrenUnder(cs[..i], key);
    if i < |ks| {
      RightOfRouteOver(ks, cs, key);
      ChildrenOver(cs[i + 1..], ks[i]);
    }
  }

  /** Children left of the routed one lie under the routed key. */
  lemma LeftOfRouteUnder(ks: seq<int>, cs: seq<Node>, key: int)
    requires |cs| == |ks| + 1
    requires forall j :: 0 <= j < |ks| ==> Under(cs[j], ks[j])
    ensures forall j :: 0 <= j < UpperBound(ks, key) ==> Under(cs[j], key)
  {
    forall j | 0 <= j < UpperBound(ks, key) ensures Under(cs[j], key) {
      UnderWeaken(cs[j], ks[j], key);
    }
  }

  /** Children right of the routed one lie over the separator that stopped
      the scan. */
  lemma RightOfRouteOver(ks: seq<int>, cs: seq<Node>, key: int)
    requires Sorted(ks) && |cs| == |ks| + 1 && UpperBound(ks, key) < |ks|
    requires forall j :: 0 <= j < |ks| ==> Over(cs[j + 1], ks[j])
    ensures forall j :: UpperBound(ks, key) < j < |cs| ==> Over(cs[j], ks[UpperBound(ks, key)])
  {
    var i := UpperBound(ks, key);
    forall j | i < j < |cs| ensures Over(cs[j], ks[i]) {
      assert ks[i] <= ks[j - 1];
      OverWeaken(cs[j], ks[j - 1], ks[i]);
    }
  }

  lemma ChildrenUnder(cs: seq<Node>, b: int)
    requires forall j :: 0 <= j < |cs| ==> Under(cs[j], b)
    ensures forall x :: x in EntriesOfChildren(cs) ==> x.key <= b
  {
    UnderEntries(Internal([], cs), b);
  }

  lemma ChildrenOver(cs: seq<Node>, b: int)
    requires forall j :: 0 <= j < |cs| ==> Over(cs[j], b)
    ensures forall x :: x in EntriesOfChildren(cs) ==> b <= x.key
  {
    OverEntries(Internal([], cs), b);
  }

  /** `Node.insert` on an ordered node performs a stable sorted insertion of
      the new pair into the node's pairs: the receiver's pairs followed by the
      new sibling's are the old pairs with `(key, value)` placed after every
      pair with a key at most `key`. */
  lemma {:induction false} InsertEntries(order: int, n: Node, key: int, value: string)
    requires WellFormed(n) && Ordered(n)
    ensures Output(NodeOps.Insert(order, n, key, value)) == InsertSorted(Entries(n), Entry(key, value))
    decreases n
  {
    if n.Internal? {
      var i := UpperBound(n.keys, key);
      InsertEntries(order, n.children[i], key, value);
      InsertEntriesStep(order, n.keys, n.children, key, value);
    }
  }

  /** One level of `InsertEntries`: if the routed child inserts into its
      pairs in sorted order, so does the internal node. */
  lemma InsertEntriesStep(order: int, ks: seq<int>, cs: seq<Node>, key: int, value: string)
    requires WellFormed(Internal(ks, cs)) && Ordered(Internal(ks, cs))
    requires var i := UpperBound(ks, key);
             Output(NodeOps.Insert(order, cs[i], key, value)) == InsertSorted(Entries(cs[i]), Entry(key, value))
    ensures Output(NodeOps.Insert(order, Internal(ks, cs), key, value)) == InsertSorted(EntriesOfChildren(cs), Entry(key, value))
  {
    var e := Entry(key, value);
    var i := UpperBound(ks, key);
    var c := NodeOps.Insert(order, cs[i], key, value);
    var a, m, b := EntriesOfChildren(cs[..i]), Entries(cs[i]), EntriesOfChildren(cs[i + 1..]);
    NodeOps.AbsorbOutput(order, ks, cs, i, c);
    ChildrenAround(cs, i);
    RouteSplitsEntries(ks, cs, key);
    InsertSortedSplit(a, m, b, e);
  }
}
