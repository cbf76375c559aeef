/** Insertion keeps the tree's shape: no node over capacity (a leaf holds at
    most `order` keys, an internal node at most `order - 1`), and every leaf
    at the same depth. */
module ShapeProofs {
  import opened Wrappers
  import opened SortedSeq
  import opened Flat
  import opened Nodes
  import LeafNode
  import InternalNode
  import NodeOps

  /** The receiver and the promoted sibling are both within capacity. */
  predicate CapacityResult(order: int, r: Inserted) {
    && WithinCapacity(order, r.node)
    && (r.sibling.Some? ==> SiblingShape(r.sibling.value) && WithinCapacity(order, Promote(r.sibling.value).1))
  }

  /** The receiver and the promoted sibling both have all leaves `h` levels down. */
  predicate BalancedResult(r: Inserted, h: nat) {
    && Balanced(r.node, h)
    && (r.sibling.Some? ==> SiblingShape(r.sibling.value) && Balanced(Promote(r.sibling.value).1, h))
  }

  lemma AbsorbCapacity(order: int, ks: seq<int>, cs: seq<Node>, i: nat, c: Inserted)
    requires WellFormed(Internal(ks, cs)) && WithinCapacity(order, Internal(ks, cs)) && i < |cs| && 2 <= order
    requires WellFormed(c.node) && (c.sibling.Some? ==> SiblingShape(c.sibling.value))
    requires CapacityResult(order, c)
    ensures CapacityResult(order, NodeOps.Absorb(order, ks, cs, i, c))
  {
    NodeOps.AbsorbChildren(order, ks, cs, i, c);
    forall x | NodeOps.AbsorbedChild(x, cs, c) ensures WithinCapacity(order, x) {
    }
  }

  /** `Node.insert` keeps a node within capacity, and the promoted sibling
      of a split is within capacity too. */
  lemma {:induction false} InsertCapacity(order: int, n: Node, key: int, value: string)
    requires WellFormed(n) && WithinCapacity(order, n) && 2 <= order
    ensures CapacityResult(order, NodeOps.Insert(order, n, key, value))
    decreases n
  {
    match n
    case Leaf(ks, vs) =>
      LeafNode.InsertCapacity(order, ks, vs, key, value);
    case Internal(ks, cs) =>
      var i := UpperBound(ks, key);
      InsertCapacity(order, cs[i], key, value);
      AbsorbCapacity(order, ks, cs, i, NodeOps.Insert(order, cs[i], key, value));
  }

  lemma AbsorbBalanced(order: int, ks: seq<int>, cs: seq<Node>, i: nat, c: Inserted, h: nat)
    requires WellFormed(Internal(ks, cs)) && Balanced(Internal(ks, cs), h) && i < |cs|
    requires WellFormed(c.node) && (c.sibling.Some? ==> SiblingShape(c.sibling.value))
    requires BalancedResult(c, h - 1)
    ensures BalancedResult(NodeOps.Absorb(order, ks, cs, i, c), h)
  {
    NodeOps.AbsorbChildren(order, ks, cs, i, c);
    BalancedFromChildren(NodeOps.Absorb(order, ks, cs, i, c), cs, c, h);
  }

  /** An internal result whose children all come from balanced parts is
      balanced. */
  lemma BalancedFromChildren(r: Inserted, cs: seq<Node>, c: Inserted, h: nat)
    requires h > 0 && (forall j :: 0 <= j < |cs| ==> Balanced(cs[j], h - 1))
    requires c.sibling.Some? ==> SiblingShape(c.sibling.value)
    requires BalancedResult(c, h - 1)
    requires r.node.Internal? && (r.sibling.Some? ==> SiblingShape(r.sibling.value) && r.sibling.value.Internal?)
    requires forall x :: x in r.node.children ==> NodeOps.AbsorbedChild(x, cs, c)
    requires r.sibling.Some? ==> forall x :: x in Promote(r.sibling.value).1.children ==> NodeOps.AbsorbedChild(x, cs, c)
    ensures BalancedResult(r, h)
  {
    forall x | NodeOps.AbsorbedChild(x, cs, c) ensures Balanced(x, h - 1) {
      if x in cs {
        var j :| 0 <= j < |cs| && cs[j] == x;
      }
    }
    forall j | 0 <= j < |r.node.children| ensures Balanced(r.node.children[j], h - 1) {
      assert r.node.children[j] in r.node.children;
    }
    if r.sibling.Some? {
      var right := Promote(r.sibling.value).1;
      forall j | 0 <= j < |right.children| ensures Balanced(right.children[j], h - 1) {
        assert right.children[j] in right.children;
      }
    }
  }

  /** `Node.insert` keeps every leaf at the same depth `h`, in the receiver
      and in the promoted sibling alike. */
  lemma {:induction false} InsertBalanced(order: int, n: Node, key: int, value: string, h: nat)
    requires WellFormed(n) && Balanced(n, h)
    ensures BalancedResult(NodeOps.Insert(order, n, key, value), h)
    decreases n
  {
    match n
    case Leaf(ks, vs) =>
    case Internal(ks, cs) =>
      var i := UpperBound(ks, key);
      InsertBalanced(order, cs[i], key, value, h - 1);
      AbsorbBalanced(order, ks, cs, i, NodeOps.Insert(order, cs[i], key, value), h);
  }

  lemma AbsorbAsWrittenCapacity(order: int, ks: seq<int>, cs: seq<Node>, i: nat, c: Inserted)
    requires WellFormed(Internal(ks, cs)) && WithinCapacity(order, Internal(ks, cs)) && i < |cs| && 2 <= order
    requires WellFormed(c.node) && (c.sibling.Some? ==> SiblingShape(c.sibling.value))
    requires CapacityResult(order, c)
    ensures CapacityResult(order, NodeOps.AbsorbAsWritten(order, ks, cs, i, c))
  {
    NodeOps.AbsorbAsWrittenChildren(order, ks, cs, i, c);
    forall x | NodeOps.AbsorbedChild(x, cs, c) ensures WithinCapacity(order, x) {
    }
  }

  /** `InsertCapacity` for the code as written: filing the promoted key at
      the wrong position breaks the order of the keys but not the capacity
      bound. */
  lemma {:induction false} InsertAsWrittenCapacity(order: int, n: Node, key: int, value: string)
    requires WellFormed(n) && WithinCapacity(order, n) && 2 <= order
    ensures CapacityResult(order, NodeOps.InsertAsWritten(order, n, key, value))
    decreases n
  {
    match n
    case Leaf(ks, vs) =>
      LeafNode.InsertCapacity(order, ks, vs, key, value);
    case Internal(ks, cs) =>
      var i := UpperBound(ks, key);
      InsertAsWrittenCapacity(order, cs[i], key, value);
      AbsorbAsWrittenCapacity(order, ks, cs, i, NodeOps.InsertAsWritten(order, cs[i], key, value));
  }

  lemma AbsorbAsWrittenBalanced(order: int, ks: seq<int>, cs: seq<Node>, i: nat, c: Inserted, h: nat)
    requires WellFormed(Internal(ks, cs)) && Balanced(Internal(ks, cs), h) && i < |cs|
    requires WellFormed(c.node) && (c.sibling.Some? ==> SiblingShape(c.sibling.value))
    requires BalancedResult(c, h - 1)
    ensures BalancedResult(NodeOps.AbsorbAsWritten(order, ks, cs, i, c), h)
  {
    NodeOps.AbsorbAsWrittenChildren(order, ks, cs, i, c);
    BalancedFromChildren(NodeOps.AbsorbAsWritten(order, ks, cs, i, c), cs, c, h);
  }

  /** `InsertBalanced` for the code as written: the misplaced key leaves
      every leaf at the same depth. */
  lemma {:induction false} InsertAsWrittenBalanced(order: int, n: Node, key: int, value: string, h: nat)
    requires WellFormed(n) && Balanced(n, h)
    ensures BalancedResult(NodeOps.InsertAsWritten(order, n, key, value), h)
    decreases n
  {
    match n
    case Leaf(ks, vs) =>
    case Internal(ks, cs) =>
      var i := UpperBound(ks, key);
      InsertAsWrittenBalanced(order, cs[i], key, value, h - 1);
      AbsorbAsWrittenBalanced(order, ks, cs, i, NodeOps.InsertAsWritten(order, cs[i], key, value), h);
  }
}
