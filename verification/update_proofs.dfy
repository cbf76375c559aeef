/** `update` changes leaf values only, so every invariant that insertion
    maintains survives it: the keys, their order, the anchoring, the
    capacity and the balance of the tree are untouched. */
module UpdateProofs {
  import opened Wrappers
  import opened SortedSeq
  import opened Flat
  import opened Nodes

  /** Nodes with the same keys store the same key sequence in leaf order. */
  lemma {:induction false} SameKeysEntries(a: Node, b: Node)
    requires WellFormed(a) && SameKeys(a, b)
    ensures KeysOf(Entries(a)) == KeysOf(Entries(b))
    decreases a, 1
  {
    match a
    case Leaf(ks, vs) =>
    case Internal(ks, cs) =>
      SameKeysChildrenEntries(cs, b.children);
  }

  lemma {:induction false} SameKeysChildrenEntries(cs: seq<Node>, ds: seq<Node>)
    requires |cs| == |ds|
    requires forall i :: 0 <= i < |cs| ==> WellFormed(cs[i]) && SameKeys(cs[i], ds[i])
    ensures KeysOf(EntriesOfChildren(cs)) == KeysOf(EntriesOfChildren(ds))
    decreases cs, 0
  {
    if |cs| > 0 {
      SameKeysEntries(cs[0], ds[0]);
      SameKeysChildrenEntries(cs[1..], ds[1..]);
      KeysOfAppend(Entries(cs[0]), EntriesOfChildren(cs[1..]));
      KeysOfAppend(Entries(ds[0]), EntriesOfChildren(ds[1..]));
    }
  }

  lemma {:induction false} SameKeysBounds(a: Node, b: Node, x: int)
    requires SameKeys(a, b)
    ensures Under(a, x) ==> Under(b, x)
    ensures Over(a, x) ==> Over(b, x)
    decreases a
  {
    if a.Internal? {
      forall i | 0 <= i < |a.children| {
        SameKeysBounds(a.children[i], b.children[i], x);
      }
    }
  }

  /** Orderedness depends on keys only. */
  lemma {:induction false} SameKeysOrdered(a: Node, b: Node)
    requires WellFormed(a) && SameKeys(a, b) && Ordered(a)
    ensures Ordered(b)
    decreases a
  {
    if a.Internal? {
      var ks, cs, ds := a.keys, a.children, b.children;
      forall i | 0 <= i < |cs| ensures Ordered(ds[i]) {
        SameKeysOrdered(cs[i], ds[i]);
      }
      forall i | 0 <= i < |ks| && i < |cs| ensures Under(ds[i], ks[i]) {
        SameKeysBounds(cs[i], ds[i], ks[i]);
      }
      forall i | 0 <= i < |ks| && i + 1 < |cs| ensures Over(ds[i + 1], ks[i]) {
        SameKeysBounds(cs[i + 1], ds[i + 1], ks[i]);
      }
    }
  }

  /** Anchoring depends on the keys in leaf order only. */
  lemma {:induction false} SameKeysAnchored(a: Node, b: Node)
    requires WellFormed(a) && SameKeys(a, b) && Anchored(a)
    ensures Anchored(b)
    decreases a
  {
    if a.Internal? {
      forall i | 0 <= i < |a.children| ensures |Entries(b.children[i])| > 0 && Anchored(b.children[i]) {
        SameKeysAnchored(a.children[i], b.children[i]);
        SameKeysEntries(a.children[i], b.children[i]);
      }
      forall i | 0 <= i < |a.keys| && i + 1 < |a.children| ensures Entries(b.children[i + 1])[0].key == b.keys[i] {
        SameKeysEntries(a.children[i + 1], b.children[i + 1]);
        assert KeysOf(Entries(a.children[i + 1]))[0] == KeysOf(Entries(b.children[i + 1]))[0];
      }
    }
  }

  /** Capacity depends on the shape only. */
  lemma {:induction false} SameKeysCapacity(a: Node, b: Node, order: int)
    requires SameKeys(a, b) && WithinCapacity(order, a)
    ensures WithinCapacity(order, b)
    decreases a
  {
    if a.Internal? {
      forall i | 0 <= i < |a.children| ensures WithinCapacity(order, b.children[i]) {
        SameKeysCapacity(a.children[i], b.children[i], order);
      }
    }
  }

  /** Depth depends on the shape only. */
  lemma {:induction false} SameKeysBalanced(a: Node, b: Node, h: nat)
    requires SameKeys(a, b) && Balanced(a, h)
    ensures Balanced(b, h)
    decreases a
  {
    if a.Internal? {
      forall i | 0 <= i < |a.children| ensures Balanced(b.children[i], h - 1) {
        SameKeysBalanced(a.children[i], b.children[i], h - 1);
      }
    }
  }
}
