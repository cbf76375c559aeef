/** Insertion keeps a node ordered: sorted keys in every node, and every
    separator at least the keys to its left and at most the keys to its
    right. When the node splits, the key its caller will promote sits
    between the two halves. */
module OrderProofs {
  import opened Wrappers
  import opened SortedSeq
  import opened Flat
  import opened Nodes
  import LeafNode
  import InternalNode
  import NodeOps

  /** An insertion result that its caller can absorb while staying ordered:
      the receiver is ordered and, when there is a sibling, the promoted
      sibling is ordered and the promoted key lies between the two. */
  predicate OrderedResult(r: Inserted) {
    && Ordered(r.node)
    && (r.sibling.Some? ==>
          && SiblingShape(r.sibling.value)
          && var (sep, right) := Promote(r.sibling.value);
             Ordered(right) && Under(r.node, sep) && Over(right, sep))
  }

  // ---- bounds survive every step of an insertion ----

  lemma PromoteBounds(s: Node, b: int)
    requires SiblingShape(s)
    ensures Under(s, b) ==> Under(Promote(s).1, b) && s.keys[0] <= b
    ensures Over(s, b) ==> Over(Promote(s).1, b) && b <= s.keys[0]
  {
    if s.Internal? {
      BoundsOfPart(s, Promote(s).1, b);
    }
  }

  lemma SplitIfFullBounds(order: int, nn: Node, b: int)
    requires nn.Internal? && WellFormed(nn) && |nn.keys| > 0
    ensures var r := InternalNode.SplitIfFull(order, nn);
            Under(nn, b) ==> Under(r.node, b) && (r.sibling.Some? ==> Under(r.sibling.value, b))
    ensures var r := InternalNode.SplitIfFull(order, nn);
            Over(nn, b) ==> Over(r.node, b) && (r.sibling.Some? ==> Over(r.sibling.value, b))
  {
    var r := InternalNode.SplitIfFull(order, nn);
    BoundsOfPart(nn, r.node, b);
    if r.sibling.Some? {
      BoundsOfPart(nn, r.sibling.value, b);
    }
  }

  lemma InsertIntoNodeBounds(ks: seq<int>, cs: seq<Node>, pos: nat, key: int, child: Node, b: int)
    requires WellFormed(Internal(ks, cs)) && pos <= |ks| && WellFormed(child)
    ensures Under(Internal(ks, cs), b) && key <= b && Under(child, b) ==>
              Under(InternalNode.InsertIntoNode(ks, cs, pos, key, child), b)
    ensures Over(Internal(ks, cs), b) && b <= key && Over(child, b) ==>
              Over(InternalNode.InsertIntoNode(ks, cs, pos, key, child), b)
  {
    var nn := InternalNode.InsertIntoNode(ks, cs, pos, key, child);
    assert forall j :: 0 <= j < |nn.children| && j != pos + 1 ==> nn.children[j] in cs;
    assert forall j :: 0 <= j < |nn.keys| && j != pos ==> nn.keys[j] in ks;
  }

  lemma ReplaceBounds(ks: seq<int>, cs: seq<Node>, i: nat, c: Node, b: int)
    requires i < |cs|
    ensures Under(Internal(ks, cs), b) && Under(c, b) ==> Under(Internal(ks, cs[i := c]), b)
    ensures Over(Internal(ks, cs), b) && Over(c, b) ==> Over(Internal(ks, cs[i := c]), b)
  {
  }

  lemma AbsorbBounds(order: int, ks: seq<int>, cs: seq<Node>, i: nat, c: Inserted, b: int)
    requires WellFormed(Internal(ks, cs)) && i < |cs|
    requires WellFormed(c.node) && (c.sibling.Some? ==> SiblingShape(c.sibling.value))
    ensures var r := NodeOps.Absorb(order, ks, cs, i, c);
            Under(Internal(ks, cs), b) && Under(c.node, b) && (c.sibling.Some? ==> Under(c.sibling.value, b)) ==>
              Under(r.node, b) && (r.sibling.Some? ==> Under(r.sibling.value, b))
    ensures var r := NodeOps.Absorb(order, ks, cs, i, c);
            Over(Internal(ks, cs), b) && Over(c.node, b) && (c.sibling.Some? ==> Over(c.sibling.value, b)) ==>
              Over(r.node, b) && (r.sibling.Some? ==> Over(r.sibling.value, b))
  {
    ReplaceBounds(ks, cs, i, c.node, b);
    if c.sibling.Some? {
      var (sep, right) := Promote(c.sibling.value);
      PromoteBounds(c.sibling.value, b);
      InsertIntoNodeBounds(ks, cs[i := c.node], i, sep, right, b);
      SplitIfFullBounds(order, InternalNode.InsertIntoNode(ks, cs[i := c.node], i, sep, right), b);
    }
  }

  /** Every key of a leaf insertion's receiver and sibling is `key` or an
      old key. */
  lemma LeafInsertKeys(order: int, ks: seq<int>, vs: seq<string>, key: int, value: string, p: Node, m: nat)
    requires |ks| == |vs|
    requires var r := LeafNode.Insert(order, ks, vs, key, value);
             p == r.node || (r.sibling.Some? && p == r.sibling.value)
    requires m < |p.keys|
    ensures p.keys[m] == key || exists j :: 0 <= j < |ks| && ks[j] == p.keys[m]
  {
    LeafNode.InsertKeysFrom(order, ks, vs, key, value);
    assert p.keys[m] in p.keys;
  }

  lemma LeafInsertBounds(order: int, ks: seq<int>, vs: seq<string>, key: int, value: string, b: int)
    requires |ks| == |vs|
    ensures var r := LeafNode.Insert(order, ks, vs, key, value);
            Under(Leaf(ks, vs), b) && key <= b ==> Under(r.node, b) && (r.sibling.Some? ==> Under(r.sibling.value, b))
    ensures var r := LeafNode.Insert(order, ks, vs, key, value);
            Over(Leaf(ks, vs), b) && b <= key ==> Over(r.node, b) && (r.sibling.Some? ==> Over(r.sibling.value, b))
  {
    var r := LeafNode.Insert(order, ks, vs, key, value);
    forall p, m | (p == r.node || (r.sibling.Some? && p == r.sibling.value)) && 0 <= m < |p.keys|
      ensures (Under(Leaf(ks, vs), b) && key <= b ==> p.keys[m] <= b)
      ensures (Over(Leaf(ks, vs), b) && b <= key ==> b <= p.keys[m])
    {
      LeafInsertKeys(order, ks, vs, key, value, p, m);
    }
  }

  /** Insertion introduces no key beyond `key`: a subtree bounded above (or
      below) by `b` stays bounded by `b` when the new key is, and so does the
      sibling it splits off. */
  lemma {:induction false} InsertBounds(order: int, n: Node, key: int, value: string, b: int)
    requires WellFormed(n)
    ensures var r := NodeOps.Insert(order, n, key, value);
            Under(n, b) && key <= b ==> Under(r.node, b) && (r.sibling.Some? ==> Under(r.sibling.value, b))
    ensures var r := NodeOps.Insert(order, n, key, value);
            Over(n, b) && b <= key ==> Over(r.node, b) && (r.sibling.Some? ==> Over(r.sibling.value, b))
    decreases n
  {
    match n
    case Leaf(ks, vs) =>
      LeafInsertBounds(order, ks, vs, key, value, b);
    case Internal(ks, cs) =>
      var i := UpperBound(ks, key);
      InsertBounds(order, cs[i], key, value, b);
      AbsorbBounds(order, ks, cs, i, NodeOps.Insert(order, cs[i], key, value), b);
  }

  // ---- orderedness ----

  /** Replacing child `i` by an ordered subtree that respects the two
      separators around it keeps the node ordered. */
  lemma ReplaceOrdered(ks: seq<int>, cs: seq<Node>, i: nat, c: Node)
    requires WellFormed(Internal(ks, cs)) && Ordered(Internal(ks, cs)) && i < |cs|
    requires Ordered(c)
    requires i < |ks| ==> Under(c, ks[i])
    requires 0 < i ==> Over(c, ks[i - 1])
    ensures Ordered(Internal(ks, cs[i := c]))
  {
    OrderedIntro(ks, cs[i := c]);
  }

  /** The four conditions of `Ordered` for an internal node, one at a time. */
  lemma OrderedIntro(ks: seq<int>, cs: seq<Node>)
    requires Sorted(ks)
    requires forall j :: 0 <= j < |cs| ==> Ordered(cs[j])
    requires forall j :: 0 <= j < |ks| && j < |cs| ==> Under(cs[j], ks[j])
    requires forall j :: 0 <= j < |ks| && j + 1 < |cs| ==> Over(cs[j + 1], ks[j])
    ensures Ordered(Internal(ks, cs))
  {
  }

  lemma InsertAtSorted(ks: seq<int>, i: nat, sep: int)
    requires Sorted(ks) && i <= |ks|
    requires i < |ks| ==> sep <= ks[i]
    requires 0 < i ==> ks[i - 1] <= sep
    ensures Sorted(InsertAt(ks, i, sep))
  {
    var ks' := InsertAt(ks, i, sep);
    forall a, b | 0 <= a < b < |ks'| ensures ks'[a] <= ks'[b] {
      if a < i && b == i {
        assert ks'[a] == ks[a] && ks[a] <= ks[i - 1];
      } else if a == i && b > i {
        assert ks'[b] == ks[b - 1] && ks[i] <= ks[b - 1];
      }
    }
  }

  lemma InsertAtChildrenOrdered(cs: seq<Node>, i: nat, l: Node, right: Node)
    requires i < |cs| && forall j :: 0 <= j < |cs| ==> Ordered(cs[j])
    requires Ordered(l) && Ordered(right)
    ensures var cs' := InsertAt(cs[i := l], i + 1, right);
            forall j :: 0 <= j < |cs'| ==> Ordered(cs'[j])
  {
    var cs' := InsertAt(cs[i := l], i + 1, right);
    forall j | 0 <= j < |cs'| ensures Ordered(cs'[j]) {
      if j < i {
        assert cs'[j] == cs[j];
      } else if j > i + 1 {
        assert cs'[j] == cs[j - 1];
      }
    }
  }

  lemma InsertAtUnder(ks: seq<int>, cs: seq<Node>, i: nat, l: Node, sep: int, right: Node)
    requires |cs| == |ks| + 1 && i < |cs|
    requires forall j :: 0 <= j < |ks| ==> Under(cs[j], ks[j])
    requires Under(l, sep)
    requires i < |ks| ==> Under(right, ks[i])
    ensures var ks', cs' := InsertAt(ks, i, sep), InsertAt(cs[i := l], i + 1, right);
            forall j :: 0 <= j < |ks'| && j < |cs'| ==> Under(cs'[j], ks'[j])
  {
    var ks', cs' := InsertAt(ks, i, sep), InsertAt(cs[i := l], i + 1, right);
    forall j | 0 <= j < |ks'| && j < |cs'| ensures Under(cs'[j], ks'[j]) {
      if j < i {
        assert cs'[j] == cs[j] && ks'[j] == ks[j];
      } else if j == i + 1 {
        assert ks'[j] == ks[i];
      } else if j > i + 1 {
        assert cs'[j] == cs[j - 1] && ks'[j] == ks[j - 1];
      }
    }
  }

  lemma InsertAtOver(ks: seq<int>, cs: seq<Node>, i: nat, l: Node, sep: int, right: Node)
    requires |cs| == |ks| + 1 && i < |cs|
    requires forall j :: 0 <= j < |ks| ==> Over(cs[j + 1], ks[j])
    requires Over(right, sep)
    requires 0 < i ==> Over(l, ks[i - 1])
    ensures var ks', cs' := InsertAt(ks, i, sep), InsertAt(cs[i := l], i + 1, right);
            forall j :: 0 <= j < |ks'| && j + 1 < |cs'| ==> Over(cs'[j + 1], ks'[j])
  {
    var ks', cs' := InsertAt(ks, i, sep), InsertAt(cs[i := l], i + 1, right);
    forall j | 0 <= j < |ks'| && j + 1 < |cs'| ensures Over(cs'[j + 1], ks'[j]) {
      if j + 1 < i {
        assert cs'[j + 1] == cs[j + 1] && ks'[j] == ks[j];
      } else if j + 1 == i {
        assert ks'[j] == ks[i - 1];
      } else if j > i {
        assert cs'[j + 1] == cs[j] && ks'[j] == ks[j - 1];
      }
    }
  }

  /** Inserting the promoted key at `i` and the promoted sibling at `i + 1`
      keeps the node ordered when the key lies between the two halves and
      between the separators around the child that split. */
  lemma InsertIntoNodeOrdered(ks: seq<int>, cs: seq<Node>, i: nat, l: Node, sep: int, right: Node)
    requires WellFormed(Internal(ks, cs)) && Ordered(Internal(ks, cs)) && i < |cs|
    requires WellFormed(l) && WellFormed(right) && Ordered(l) && Ordered(right)
    requires Under(l, sep) && Over(right, sep)
    requires i < |ks| ==> Under(right, ks[i]) && sep <= ks[i]
    requires 0 < i ==> Over(l, ks[i - 1]) && ks[i - 1] <= sep
    ensures Ordered(InternalNode.InsertIntoNode(ks, cs[i := l], i, sep, right))
  {
    var ks', cs' := InsertAt(ks, i, sep), InsertAt(cs[i := l], i + 1, right);
    InsertAtSorted(ks, i, sep);
    InsertAtChildrenOrdered(cs, i, l, right);
    InsertAtUnder(ks, cs, i, l, sep, right);
    InsertAtOver(ks, cs, i, l, sep, right);
    OrderedIntro(ks', cs');
  }

  /** The keys before `m`, with the children around them, form an ordered
      node. */
  lemma PrefixOrdered(ks: seq<int>, cs: seq<Node>, m: nat)
    requires WellFormed(Internal(ks, cs)) && Ordered(Internal(ks, cs)) && m <= |ks|
    ensures Ordered(Internal(ks[..m], cs[..m + 1]))
  {
    OrderedIntro(ks[..m], cs[..m + 1]);
  }

  /** The keys from `m` on, with the children around them, form an ordered
      node. */
  lemma SuffixOrdered(ks: seq<int>, cs: seq<Node>, m: nat)
    requires WellFormed(Internal(ks, cs)) && Ordered(Internal(ks, cs)) && m <= |ks|
    ensures Ordered(Internal(ks[m..], cs[m..]))
  {
    var ks', cs' := ks[m..], cs[m..];
    assert forall j :: 0 <= j < |ks'| ==> ks'[j] == ks[m + j];
    assert forall j :: 0 <= j < |cs'| ==> cs'[j] == cs[m + j];
    OrderedIntro(ks', cs');
  }

  /** Splitting an ordered internal node leaves two ordered halves once the
      middle key is promoted, with the middle key between them. */
  lemma SplitOrdered(ks: seq<int>, cs: seq<Node>)
    requires WellFormed(Internal(ks, cs)) && Ordered(Internal(ks, cs)) && |ks| > 0
    ensures OrderedResult(InternalNode.SplitInternalNode(ks, cs))
  {
    var mid := |ks| / 2;
    InternalNode.SplitParts(ks, cs);
    PrefixOrdered(ks, cs, mid);
    SuffixOrdered(ks, cs, mid + 1);
    SplitLeftUnder(ks, cs);
    SplitRightOver(ks, cs);
  }

  lemma SplitLeftUnder(ks: seq<int>, cs: seq<Node>)
    requires Sorted(ks) && |cs| == |ks| + 1 && |ks| > 0
    requires forall j :: 0 <= j < |ks| ==> Under(cs[j], ks[j])
    ensures Under(Internal(ks[..|ks| / 2], cs[..|ks| / 2 + 1]), ks[|ks| / 2])
  {
    var mid := |ks| / 2;
    var left := Internal(ks[..mid], cs[..mid + 1]);
    forall j | 0 <= j < |left.children| ensures Under(left.children[j], ks[mid]) {
      assert left.children[j] == cs[j] && ks[j] <= ks[mid];
      UnderWeaken(cs[j], ks[j], ks[mid]);
    }
  }

  lemma SplitRightOver(ks: seq<int>, cs: seq<Node>)
    requires Sorted(ks) && |cs| == |ks| + 1 && |ks| > 0
    requires forall j :: 0 <= j < |ks| ==> Over(cs[j + 1], ks[j])
    ensures Over(Internal(ks[|ks| / 2 + 1..], cs[|ks| / 2 + 1..]), ks[|ks| / 2])
  {
    var mid := |ks| / 2;
    var right := Internal(ks[mid + 1..], cs[mid + 1..]);
    forall j | 0 <= j < |right.children| ensures Over(right.children[j], ks[mid]) {
      assert right.children[j] == cs[mid + 1 + j] && ks[mid] <= ks[mid + j];
      OverWeaken(cs[mid + 1 + j], ks[mid + j], ks[mid]);
    }
    assert forall j :: 0 <= j < |right.keys| ==> right.keys[j] == ks[mid + 1 + j];
  }

  lemma SplitIfFullOrdered(order: int, nn: Node)
    requires nn.Internal? && WellFormed(nn) && Ordered(nn) && |nn.keys| > 0
    ensures OrderedResult(InternalNode.SplitIfFull(order, nn))
  {
    if order - 1 < |nn.keys| {
      SplitOrdered(nn.keys, nn.children);
    }
  }

  /** Absorbing the result of an insertion into child `i` keeps the node
      ordered, given that the child's result stays within the separators
      around child `i`. */
  lemma AbsorbOrdered(order: int, ks: seq<int>, cs: seq<Node>, i: nat, c: Inserted)
    requires WellFormed(Internal(ks, cs)) && Ordered(Internal(ks, cs)) && i < |cs|
    requires WellFormed(c.node) && (c.sibling.Some? ==> SiblingShape(c.sibling.value))
    requires OrderedResult(c)
    requires i < |ks| ==> Under(c.node, ks[i]) && (c.sibling.Some? ==> Under(c.sibling.value, ks[i]))
    requires 0 < i ==> Over(c.node, ks[i - 1]) && (c.sibling.Some? ==> Over(c.sibling.value, ks[i - 1]))
    ensures OrderedResult(NodeOps.Absorb(order, ks, cs, i, c))
  {
    if c.sibling.None? {
      ReplaceOrdered(ks, cs, i, c.node);
    } else {
      var (sep, right) := Promote(c.sibling.value);
      if i < |ks| {
        PromoteBounds(c.sibling.value, ks[i]);
      }
      if 0 < i {
        PromoteBounds(c.sibling.value, ks[i - 1]);
      }
      SplitChildOrdered(order, ks, cs, i, c.node, sep, right);
    }
  }

  /** Taking in the promoted key and sibling of a split child `i` keeps the
      node ordered, and so does the split that may follow. */
  lemma SplitChildOrdered(order: int, ks: seq<int>, cs: seq<Node>, i: nat, l: Node, sep: int, right: Node)
    requires WellFormed(Internal(ks, cs)) && Ordered(Internal(ks, cs)) && i < |cs|
    requires WellFormed(l) && WellFormed(right) && Ordered(l) && Ordered(right)
    requires Under(l, sep) && Over(right, sep)
    requires i < |ks| ==> Under(right, ks[i]) && sep <= ks[i]
    requires 0 < i ==> Over(l, ks[i - 1]) && ks[i - 1] <= sep
    ensures OrderedResult(InternalNode.SplitIfFull(order, InternalNode.InsertIntoNode(ks, cs[i := l], i, sep, right)))
  {
    var nn := InternalNode.InsertIntoNode(ks, cs[i := l], i, sep, right);
    InsertIntoNodeOrdered(ks, cs, i, l, sep, right);
    assert nn.Internal? && WellFormed(nn) && Ordered(nn) && |nn.keys| > 0;
    SplitIfFullOrdered(order, nn);
  }

  lemma LeafInsertOrdered(order: int, ks: seq<int>, vs: seq<string>, key: int, value: string)
    requires |ks| == |vs| && Sorted(ks)
    ensures OrderedResult(LeafNode.Insert(order, ks, vs, key, value))
  {
    var r := LeafNode.Insert(order, ks, vs, key, value);
    if r.sibling.Some? {
      var s := r.sibling.value;
      assert Promote(s) == (s.keys[0], s);
      assert Under(r.node, s.keys[0]);
      assert Over(s, s.keys[0]);
    }
  }

  /** `Node.insert` keeps an ordered node ordered, and when it splits, the
      key handed up lies between the receiver and the promoted sibling. */
  lemma {:induction false} InsertOrdered(order: int, n: Node, key: int, value: string)
    requires WellFormed(n) && Ordered(n)
    ensures OrderedResult(NodeOps.Insert(order, n, key, value))
    decreases n
  {
    match n
    case Leaf(ks, vs) =>
      LeafInsertOrdered(order, ks, vs, key, value);
    case Internal(ks, cs) =>
      var i := UpperBound(ks, key);
      InsertOrdered(order, cs[i], key, value);
      if i < |ks| {
        InsertBounds(order, cs[i], key, value, ks[i]);
      }
      if 0 < i {
        InsertBounds(order, cs[i], key, value, ks[i - 1]);
      }
      AbsorbOrdered(order, ks, cs, i, NodeOps.Insert(order, cs[i], key, value));
  }
}
