/** Insertion keeps every separator anchored: each separator equals the
    first key stored under the child to its right, and no child is empty.
    Together with orderedness this is what lets `search` find every key. */
module AnchorProofs {
  import opened Wrappers
  import opened SortedSeq
  import opened Flat
  import opened Nodes
  import LeafNode
  import InternalNode
  import NodeOps
  import EntriesProofs

  /** An insertion result that its caller can absorb while staying anchored:
      the receiver is anchored and non-empty, and the promoted sibling is
      too, with the promoted key equal to the sibling's first stored key. */
  predicate AnchoredResult(r: Inserted) {
    && Anchored(r.node) && |Entries(r.node)| > 0
    && (r.sibling.Some? ==>
          && SiblingShape(r.sibling.value)
          && var (sep, right) := Promote(r.sibling.value);
             Anchored(right) && |Entries(right)| > 0 && Entries(right)[0].key == sep)
  }

  /** The two conditions of `Anchored` for an internal node. */
  lemma AnchoredIntro(ks: seq<int>, cs: seq<Node>)
    requires forall j :: 0 <= j < |cs| ==> |Entries(cs[j])| > 0 && Anchored(cs[j])
    requires forall j :: 0 <= j < |ks| && j + 1 < |cs| ==> Entries(cs[j + 1])[0].key == ks[j]
    ensures Anchored(Internal(ks, cs))
  {
  }

  /** The keys before `m`, with the children around them, form an
      anchored node. */
  lemma PrefixAnchored(ks: seq<int>, cs: seq<Node>, m: nat)
    requires WellFormed(Internal(ks, cs)) && Anchored(Internal(ks, cs)) && m <= |ks|
    ensures Anchored(Internal(ks[..m], cs[..m + 1]))
  {
    AnchoredIntro(ks[..m], cs[..m + 1]);
  }

  /** The keys from `m` on, with the children around them, form an anchored
      node. */
  lemma SuffixAnchored(ks: seq<int>, cs: seq<Node>, m: nat)
    requires WellFormed(Internal(ks, cs)) && Anchored(Internal(ks, cs)) && m <= |ks|
    ensures Anchored(Internal(ks[m..], cs[m..]))
  {
    var ks', cs' := ks[m..], cs[m..];
    assert forall j :: 0 <= j < |ks'| ==> ks'[j] == ks[m + j];
    assert forall j :: 0 <= j < |cs'| ==> cs'[j] == cs[m + j];
    AnchoredIntro(ks', cs');
  }

  /** Splitting an anchored internal node leaves two anchored halves, and
      the promoted middle key is the first key stored in the right half. */
  lemma SplitAnchored(ks: seq<int>, cs: seq<Node>)
    requires WellFormed(Internal(ks, cs)) && Anchored(Internal(ks, cs)) && |ks| > 0
    ensures AnchoredResult(InternalNode.SplitInternalNode(ks, cs))
  {
    var mid := |ks| / 2;
    InternalNode.SplitParts(ks, cs);
    PrefixAnchored(ks, cs, mid);
    SuffixAnchored(ks, cs, mid + 1);
    SplitHeads(ks, cs);
  }

  /** Both halves of a split hold pairs, and the right half starts with the
      middle key. */
  lemma SplitHeads(ks: seq<int>, cs: seq<Node>)
    requires |cs| == |ks| + 1 && |ks| > 0
    requires forall j :: 0 <= j < |cs| ==> |Entries(cs[j])| > 0
    requires Entries(cs[|ks| / 2 + 1])[0].key == ks[|ks| / 2]
    ensures |EntriesOfChildren(cs[..|ks| / 2 + 1])| > 0
    ensures |EntriesOfChildren(cs[|ks| / 2 + 1..])| > 0
    ensures EntriesOfChildren(cs[|ks| / 2 + 1..])[0].key == ks[|ks| / 2]
  {
    var mid := |ks| / 2;
    var left, right := cs[..mid + 1], cs[mid + 1..];
    assert left[0] == cs[0] && right[0] == cs[mid + 1];
    EntriesOfChildrenNonEmpty(left, 0);
    ChildrenHead(right);
  }

  lemma SplitIfFullAnchored(order: int, nn: Node)
    requires nn.Internal? && WellFormed(nn) && Anchored(nn) && |nn.keys| > 0
    ensures AnchoredResult(InternalNode.SplitIfFull(order, nn))
  {
    if order - 1 < |nn.keys| {
      SplitAnchored(nn.keys, nn.children);
    } else {
      EntriesOfChildrenNonEmpty(nn.children, 0);
    }
  }

  lemma InsertAtAnchored(ks: seq<int>, cs: seq<Node>, i: nat, l: Node, sep: int, right: Node)
    requires |cs| == |ks| + 1 && i < |cs|
    requires forall j :: 0 <= j < |cs| ==> |Entries(cs[j])| > 0 && Anchored(cs[j])
    requires forall j :: 0 <= j < |ks| ==> Entries(cs[j + 1])[0].key == ks[j]
    requires |Entries(l)| > 0 && Anchored(l) && |Entries(right)| > 0 && Anchored(right)
    requires Entries(right)[0].key == sep
    requires 0 < i ==> Entries(l)[0].key == ks[i - 1]
    ensures Anchored(Internal(InsertAt(ks, i, sep), InsertAt(cs[i := l], i + 1, right)))
  {
    var ks', cs' := InsertAt(ks, i, sep), InsertAt(cs[i := l], i + 1, right);
    forall j | 0 <= j < |cs'| ensures |Entries(cs'[j])| > 0 && Anchored(cs'[j]) {
      if j < i {
        assert cs'[j] == cs[j];
      } else if j > i + 1 {
        assert cs'[j] == cs[j - 1];
      }
    }
    forall j | 0 <= j < |ks'| && j + 1 < |cs'| ensures Entries(cs'[j + 1])[0].key == ks'[j] {
      if j + 1 < i {
        assert cs'[j + 1] == cs[j + 1] && ks'[j] == ks[j];
      } else if j + 1 == i {
        assert ks'[j] == ks[i - 1];
      } else if j > i {
        assert cs'[j + 1] == cs[j] && ks'[j] == ks[j - 1];
      }
    }
    AnchoredIntro(ks', cs');
  }

  /** Absorbing the result of an insertion into child `i` keeps the node
      anchored, given that the child's first key did not move when a
      separator anchors it. */
  lemma AbsorbAnchored(order: int, ks: seq<int>, cs: seq<Node>, i: nat, c: Inserted)
    requires WellFormed(Internal(ks, cs)) && Anchored(Internal(ks, cs)) && i < |cs|
    requires WellFormed(c.node) && (c.sibling.Some? ==> SiblingShape(c.sibling.value))
    requires AnchoredResult(c)
    requires 0 < i ==> Entries(c.node)[0].key == ks[i - 1]
    ensures AnchoredResult(NodeOps.Absorb(order, ks, cs, i, c))
  {
    if c.sibling.None? {
      ReplaceAnchored(ks, cs, i, c.node);
    } else {
      var (sep, right) := Promote(c.sibling.value);
      SplitChildAnchored(order, ks, cs, i, c.node, sep, right);
    }
  }

  /** Replacing child `i` by a non-empty anchored node with the same first
      key keeps the node anchored. */
  lemma ReplaceAnchored(ks: seq<int>, cs: seq<Node>, i: nat, l: Node)
    requires WellFormed(Internal(ks, cs)) && Anchored(Internal(ks, cs)) && i < |cs|
    requires Anchored(l) && |Entries(l)| > 0
    requires 0 < i ==> Entries(l)[0].key == ks[i - 1]
    ensures Anchored(Internal(ks, cs[i := l])) && |EntriesOfChildren(cs[i := l])| > 0
  {
    var cs' := cs[i := l];
    AnchoredIntro(ks, cs');
    EntriesOfChildrenNonEmpty(cs', 0);
  }

  /** Taking in the promoted key and sibling of a split child `i` keeps the
      node anchored, and so does the split that may follow. */
  lemma SplitChildAnchored(order: int, ks: seq<int>, cs: seq<Node>, i: nat, l: Node, sep: int, right: Node)
    requires WellFormed(Internal(ks, cs)) && Anchored(Internal(ks, cs)) && i < |cs|
    requires WellFormed(l) && WellFormed(right)
    requires Anchored(l) && |Entries(l)| > 0
    requires Anchored(right) && |Entries(right)| > 0 && Entries(right)[0].key == sep
    requires 0 < i ==> Entries(l)[0].key == ks[i - 1]
    ensures AnchoredResult(InternalNode.SplitIfFull(order, InternalNode.InsertIntoNode(ks, cs[i := l], i, sep, right)))
  {
    var nn := InternalNode.InsertIntoNode(ks, cs[i := l], i, sep, right);
    InsertIntoNodeAnchored(ks, cs, i, l, sep, right);
    assert nn.Internal? && WellFormed(nn) && Anchored(nn) && |nn.keys| > 0;
    SplitIfFullAnchored(order, nn);
  }

  lemma InsertIntoNodeAnchored(ks: seq<int>, cs: seq<Node>, i: nat, l: Node, sep: int, right: Node)
    requires WellFormed(Internal(ks, cs)) && Anchored(Internal(ks, cs)) && i < |cs|
    requires WellFormed(l) && WellFormed(right)
    requires Anchored(l) && |Entries(l)| > 0
    requires Anchored(right) && |Entries(right)| > 0 && Entries(right)[0].key == sep
    requires 0 < i ==> Entries(l)[0].key == ks[i - 1]
    ensures Anchored(InternalNode.InsertIntoNode(ks, cs[i := l], i, sep, right))
  {
    InsertAtAnchored(ks, cs, i, l, sep, right);
  }

  lemma LeafInsertAnchored(order: int, ks: seq<int>, vs: seq<string>, key: int, value: string)
    requires |ks| == |vs| && 1 <= order
    ensures AnchoredResult(LeafNode.Insert(order, ks, vs, key, value))
  {
    LeafNode.InsertCapacity(order, ks, vs, key, value);
    var r := LeafNode.Insert(order, ks, vs, key, value);
    if r.sibling.Some? {
      var s := r.sibling.value;
      assert Promote(s) == (s.keys[0], s);
      assert Entries(s)[0] == Entry(s.keys[0], s.values[0]);
    }
  }

  /** An inserted key that is at least a non-empty subtree's first key
      leaves that first pair in front. */
  lemma InsertKeepsFirst(order: int, n: Node, key: int, value: string)
    requires WellFormed(n) && Ordered(n)
    requires |Entries(n)| > 0 && Entries(n)[0].key <= key
    ensures var r := NodeOps.Insert(order, n, key, value);
            |Entries(r.node)| > 0 ==> Entries(r.node)[0] == Entries(n)[0]
  {
    EntriesProofs.InsertEntries(order, n, key, value);
    InsertSortedHead(Entries(n), Entry(key, value));
  }

  /** `Node.insert` keeps an ordered, anchored node anchored and non-empty,
      and when it splits, the key handed up is the first key stored in the
      promoted sibling. */
  lemma {:induction false} InsertAnchored(order: int, n: Node, key: int, value: string)
    requires WellFormed(n) && Ordered(n) && Anchored(n) && 1 <= order
    ensures AnchoredResult(NodeOps.Insert(order, n, key, value))
    decreases n
  {
    match n
    case Leaf(ks, vs) =>
      LeafInsertAnchored(order, ks, vs, key, value);
    case Internal(ks, cs) =>
      var i := UpperBound(ks, key);
      InsertAnchored(order, cs[i], key, value);
      InsertAnchoredStep(order, ks, cs, key, value);
  }

  /** One level of `InsertAnchored`: the routed child's result is anchored,
      so the node's is. */
  lemma InsertAnchoredStep(order: int, ks: seq<int>, cs: seq<Node>, key: int, value: string)
    requires WellFormed(Internal(ks, cs)) && Ordered(Internal(ks, cs)) && Anchored(Internal(ks, cs))
    requires AnchoredResult(NodeOps.Insert(order, cs[UpperBound(ks, key)], key, value))
    ensures AnchoredResult(NodeOps.Insert(order, Internal(ks, cs), key, value))
  {
    var i := UpperBound(ks, key);
    var c := NodeOps.Insert(order, cs[i], key, value);
    if 0 < i {
      var child := cs[i];
      assert child in cs;
      assert WellFormed(child) && Ordered(child) && |Entries(child)| > 0;
      assert Entries(child)[0].key == ks[i - 1] <= key;
      InsertKeepsFirst(order, child, key, value);
    }
    AbsorbAnchored(order, ks, cs, i, c);
  }
}
