/** Where the code as written and the corrected insertion agree. On an
    ordered, anchored node whose stored keys are distinct, the promoted key's
    own upper-bound position among the separators is exactly the position of
    the child that split, so InternalNode.java's placement and the corrected
    one build the same node. The new key itself may repeat a stored one. */
module AsWrittenProofs {
  import opened Wrappers
  import opened SortedSeq
  import opened Flat
  import opened Nodes
  import NodeOps
  import EntriesProofs
  import AnchorProofs

  /** With distinct stored keys, the code as written inserts exactly as the
      corrected insertion does. */
  lemma {:induction false} InsertAgrees(order: int, n: Node, key: int, value: string)
    requires WellFormed(n) && Ordered(n) && Anchored(n) && DistinctKeys(Entries(n)) && 1 <= order
    ensures NodeOps.InsertAsWritten(order, n, key, value) == NodeOps.Insert(order, n, key, value)
    decreases n
  {
    if n.Internal? {
      var ks, cs := n.keys, n.children;
      var i := UpperBound(ks, key);
      NeighbourKeys(cs, i);
      InsertAgrees(order, cs[i], key, value);
      var c := NodeOps.Insert(order, cs[i], key, value);
      if c.sibling.Some? {
        PromotedKeyRoutesBack(order, ks, cs, key, value);
      }
    }
  }

  /** The pairs of child `i` have distinct keys, and none of them has the key
      of the first pair of child `i + 1`. */
  lemma NeighbourKeys(cs: seq<Node>, i: nat)
    requires i < |cs| && DistinctKeys(EntriesOfChildren(cs))
    ensures DistinctKeys(Entries(cs[i]))
    ensures i + 1 < |cs| && |Entries(cs[i + 1])| > 0 ==>
              Entries(cs[i + 1])[0].key !in KeysOf(Entries(cs[i]))
  {
    var a, m, b := EntriesOfChildren(cs[..i]), Entries(cs[i]), EntriesOfChildren(cs[i + 1..]);
    ChildrenAround(cs, i);
    DistinctConcat(a + m, b);
    DistinctConcat(a, m);
    if i + 1 < |cs| && |Entries(cs[i + 1])| > 0 {
      ChildrenHead(cs[i + 1..]);
      assert b[0].key in KeysOf(b);
      KeysOfAppend(a, m);
    }
  }

  /** When the routed child splits, the key it hands up is routed back to
      that child by the upper-bound scan: it is at least every separator left
      of the child and below the separator right of it. */
  lemma PromotedKeyRoutesBack(order: int, ks: seq<int>, cs: seq<Node>, key: int, value: string)
    requires WellFormed(Internal(ks, cs)) && Ordered(Internal(ks, cs)) && Anchored(Internal(ks, cs))
    requires DistinctKeys(EntriesOfChildren(cs)) && 1 <= order
    requires NodeOps.Insert(order, cs[UpperBound(ks, key)], key, value).sibling.Some?
    ensures var c := NodeOps.Insert(order, cs[UpperBound(ks, key)], key, value);
            UpperBound(ks, Promote(c.sibling.value).0) == UpperBound(ks, key)
  {
    var i := UpperBound(ks, key);
    var c := NodeOps.Insert(order, cs[i], key, value);
    var sep := Promote(c.sibling.value).0;
    PromotedKeyStored(order, cs[i], key, value);
    NeighbourKeys(cs, i);
    var lo := if 0 < i then Some(ks[i - 1]) else None;
    var hi := if i < |ks| then Some(ks[i]) else None;
    if 0 < i {
      OverEntries(cs[i], ks[i - 1]);
    }
    if i < |ks| {
      UnderEntries(cs[i], ks[i]);
      assert ks[i] == Entries(cs[i + 1])[0].key;
    }
    KeyBetween(Entries(cs[i]), key, sep, lo, hi);
    RoutesBetween(ks, key, sep);
  }

  /** A key that is the new key, or a stored key strictly below the next
      separator and at least the previous one, lies within the same bounds
      as the new key. */
  lemma KeyBetween(es: seq<Entry>, key: int, sep: int, lo: Option<int>, hi: Option<int>)
    requires sep == key || sep in KeysOf(es)
    requires lo.Some? ==> lo.value <= key && forall x :: x in es ==> lo.value <= x.key
    requires hi.Some? ==> key < hi.value && hi.value !in KeysOf(es) && forall x :: x in es ==> x.key <= hi.value
    ensures lo.Some? ==> lo.value <= sep
    ensures hi.Some? ==> sep < hi.value
  {
    if sep != key {
      if lo.Some? {
        KeyBelow(es, sep, lo.value);
      }
      if hi.Some? {
        KeyAbove(es, sep, hi.value);
      }
    }
  }

  /** On sorted separators, a key at least the separator left of the new
      key's position and below the one right of it is routed to the same
      position. */
  lemma RoutesBetween(ks: seq<int>, key: int, sep: int)
    requires Sorted(ks)
    requires 0 < UpperBound(ks, key) ==> ks[UpperBound(ks, key) - 1] <= sep
    requires UpperBound(ks, key) < |ks| ==> sep < ks[UpperBound(ks, key)]
    ensures UpperBound(ks, sep) == UpperBound(ks, key)
  {
    var i := UpperBound(ks, key);
    forall j | 0 <= j < i ensures ks[j] <= sep {
      assert ks[j] <= ks[i - 1];
    }
    UpperBoundUnique(ks, sep, i);
  }

  /** The key of a pair in a list whose keys are all at least `b` is at
      least `b`. */
  lemma KeyBelow(es: seq<Entry>, k: int, b: int)
    requires k in KeysOf(es) && forall x :: x in es ==> b <= x.key
    ensures b <= k
  {
    var p :| 0 <= p < |es| && KeysOf(es)[p] == k;
    assert es[p] in es;
  }

  /** The key of a pair in a list whose keys are all at most `b` is at most
      `b`. */
  lemma KeyAbove(es: seq<Entry>, k: int, b: int)
    requires k in KeysOf(es) && forall x :: x in es ==> x.key <= b
    ensures k <= b
  {
    var p :| 0 <= p < |es| && KeysOf(es)[p] == k;
    assert es[p] in es;
  }

  /** The key a split hands up is the new key or a key already stored in the
      node. */
  lemma PromotedKeyStored(order: int, n: Node, key: int, value: string)
    requires WellFormed(n) && Ordered(n) && Anchored(n) && 1 <= order
    requires NodeOps.Insert(order, n, key, value).sibling.Some?
    ensures var c := NodeOps.Insert(order, n, key, value);
            var sep := Promote(c.sibling.value).0;
            sep == key || sep in KeysOf(Entries(n))
  {
    var c := NodeOps.Insert(order, n, key, value);
    var (sep, right) := Promote(c.sibling.value);
    AnchorProofs.InsertAnchored(order, n, key, value);
    EntriesProofs.InsertEntries(order, n, key, value);
    var out := Entries(c.node) + Entries(c.sibling.value);
    assert out[|Entries(c.node)|] == Entries(right)[0];
    assert KeysOf(out)[|Entries(c.node)|] == sep;
    InsertSortedKeys(Entries(n), Entry(key, value));
  }
}
