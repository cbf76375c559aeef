/** InternalNode.java: separator keys and child links only. A child split is
    absorbed by inserting the promoted key and the new sibling, and the node
    splits itself when it holds more than `order - 1` keys. */
module InternalNode {
  import opened Wrappers
  import opened SortedSeq
  import opened Flat
  import opened Nodes

  /** `insertIntoNode(key, child)`: `key` goes into `keys` at `pos` and
      `child` into `children` at `pos + 1`, which keeps
      `children.size == keys.size + 1`. */
  function InsertIntoNode(ks: seq<int>, cs: seq<Node>, pos: nat, key: int, child: Node): (r: Node)
    requires |cs| == |ks| + 1 && pos <= |ks|
    requires forall i :: 0 <= i < |cs| ==> WellFormed(cs[i])
    requires WellFormed(child)
    ensures r.Internal? && WellFormed(r)
    ensures |r.keys| == |ks| + 1
    ensures r.keys == InsertAt(ks, pos, key) && r.children == InsertAt(cs, pos + 1, child)
  {
    Internal(InsertAt(ks, pos, key), InsertAt(cs, pos + 1, child))
  }

  /** The new child's pairs land right after those of child `pos`. */
  lemma InsertIntoNodeEntries(ks: seq<int>, cs: seq<Node>, pos: nat, key: int, child: Node)
    requires |cs| == |ks| + 1 && pos <= |ks|
    requires forall i :: 0 <= i < |cs| ==> WellFormed(cs[i])
    requires WellFormed(child)
    ensures Entries(InsertIntoNode(ks, cs, pos, key, child))
              == EntriesOfChildren(cs[..pos + 1]) + Entries(child) + EntriesOfChildren(cs[pos + 1..])
  {
    EntriesOfChildrenAppend(cs[..pos + 1] + [child], cs[pos + 1..]);
    EntriesOfChildrenAppend(cs[..pos + 1], [child]);
    EntriesOfChildrenSingle(child);
  }

  /** `splitInternalNode`: the receiver keeps `keys[..mid]` and
      `children[..mid + 1]`; the sibling gets `keys[mid..]` and
      `children[mid + 1..]`, one key too many until its caller promotes it. */
  function SplitInternalNode(ks: seq<int>, cs: seq<Node>): (r: Inserted)
    requires |cs| == |ks| + 1 && |ks| > 0
    requires forall i :: 0 <= i < |cs| ==> WellFormed(cs[i])
    ensures r.node.Internal? && r.sibling.Some? && r.sibling.value.Internal?
    ensures r.node.keys + r.sibling.value.keys == ks
    ensures r.node.children + r.sibling.value.children == cs
    ensures |r.node.keys| == |ks| / 2
    ensures WellFormed(r.node) && SiblingShape(r.sibling.value)
  {
    var mid := |ks| / 2;
    SplitAt(cs, mid + 1);
    SplitAt(ks, mid);
    Inserted(Internal(ks[..mid], cs[..mid + 1]), Some(Internal(ks[mid..], cs[mid + 1..])))
  }

  /** A split loses and reorders no pair: the receiver's pairs followed by
      the sibling's are the pairs of the node that split. */
  lemma SplitEntries(ks: seq<int>, cs: seq<Node>)
    requires |cs| == |ks| + 1 && |ks| > 0
    requires forall i :: 0 <= i < |cs| ==> WellFormed(cs[i])
    ensures Output(SplitInternalNode(ks, cs)) == Entries(Internal(ks, cs))
  {
    var mid := |ks| / 2;
    SplitAt(cs, mid + 1);
    EntriesOfChildrenAppend(cs[..mid + 1], cs[mid + 1..]);
  }

  /** The two halves of a split spelled out, with the sibling as its caller
      sees it once the middle key is promoted. */
  lemma SplitParts(ks: seq<int>, cs: seq<Node>)
    requires |cs| == |ks| + 1 && |ks| > 0
    requires forall i :: 0 <= i < |cs| ==> WellFormed(cs[i])
    ensures var mid := |ks| / 2;
            var r := SplitInternalNode(ks, cs);
            && r.node == Internal(ks[..mid], cs[..mid + 1])
            && r.sibling == Some(Internal(ks[mid..], cs[mid + 1..]))
            && Promote(r.sibling.value) == (ks[mid], Internal(ks[mid + 1..], cs[mid + 1..]))
  {
    DropOneMore(ks, |ks| / 2);
  }

  /** Both nodes a split leaves behind take their children from the node
      that split. */
  lemma SplitIfFullChildren(order: int, n: Node)
    requires n.Internal? && WellFormed(n) && |n.keys| > 0
    ensures var r := SplitIfFull(order, n);
            && (forall x :: x in r.node.children ==> x in n.children)
            && (r.sibling.Some? ==> forall x :: x in Promote(r.sibling.value).1.children ==> x in n.children)
  {
    if order - 1 < |n.keys| {
      SplitParts(n.keys, n.children);
    }
  }

  /** The tail of `InternalNode.insert`: no split while the node holds at
      most `order - 1` keys, otherwise split. */
  function SplitIfFull(order: int, n: Node): (r: Inserted)
    requires n.Internal? && WellFormed(n) && |n.keys| > 0
    ensures r.node.Internal? && WellFormed(r.node)
    ensures r.sibling.None? <==> |n.keys| <= order - 1
    ensures r.sibling.None? ==> r.node == n
    ensures r.sibling.Some? ==> r.sibling.value.Internal? && SiblingShape(r.sibling.value)
    ensures 2 <= order && |n.keys| <= order ==>
              && |r.node.keys| <= order - 1
              && (r.sibling.Some? ==> |r.sibling.value.keys| - 1 <= order - 1)
  {
    if |n.keys| <= order - 1 then Inserted(n, None) else SplitInternalNode(n.keys, n.children)
  }

  /** Splitting or not, the pairs stay as they were. */
  lemma SplitIfFullEntries(order: int, n: Node)
    requires n.Internal? && WellFormed(n) && |n.keys| > 0
    ensures Output(SplitIfFull(order, n)) == Entries(n)
  {
    if order - 1 < |n.keys| {
      SplitEntries(n.keys, n.children);
    }
  }
}
