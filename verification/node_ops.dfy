/** The three operations of the `Node` contract (Node.java:22-24), dispatched
    over the two variants: `insert` recurses through the routed child and
    absorbs a split, `search` and `update` follow the same routing. */
module NodeOps {
  import opened Wrappers
  import opened SortedSeq
  import opened Flat
  import opened Nodes
  import LeafNode
  import InternalNode

  /** `Node.insert`. When the routed child splits, the promoted key is placed
      right after the separator left of that child (position `i`) and the
      sibling right after the child (position `i + 1`). */
  function Insert(order: int, n: Node, key: int, value: string): (r: Inserted)
    requires WellFormed(n)
    ensures WellFormed(r.node) && r.node.Leaf? == n.Leaf?
    ensures r.sibling.Some? ==> SiblingShape(r.sibling.value) && r.sibling.value.Leaf? == n.Leaf?
    decreases n
  {
    match n
    case Leaf(ks, vs) => LeafNode.Insert(order, ks, vs, key, value)
    case Internal(ks, cs) =>
      var i := UpperBound(ks, key);
      Absorb(order, ks, cs, i, Insert(order, cs[i], key, value))
  }

  /** The part of `InternalNode.insert` after the recursive call: child `i`
      is replaced by the child's receiver, and a split child's promoted key
      and sibling are inserted at positions `i` and `i + 1`, after which the
      node splits itself when it is over capacity. */
  function Absorb(order: int, ks: seq<int>, cs: seq<Node>, i: nat, c: Inserted): (r: Inserted)
    requires WellFormed(Internal(ks, cs)) && i < |cs|
    requires WellFormed(c.node) && (c.sibling.Some? ==> SiblingShape(c.sibling.value))
    ensures WellFormed(r.node) && r.node.Internal?
    ensures r.sibling.Some? ==> SiblingShape(r.sibling.value) && r.sibling.value.Internal?
  {
    var cs' := cs[i := c.node];
    if c.sibling.None? then
      Inserted(Internal(ks, cs'), None)
    else
      var (sep, right) := Promote(c.sibling.value);
      InternalNode.SplitIfFull(order, InternalNode.InsertIntoNode(ks, cs', i, sep, right))
  }

  /** Absorbing loses and reorders no pair: the pairs of the result are
      those of the children left of `i`, then the child's output, then those
      of the children right of `i`. */
  lemma AbsorbOutput(order: int, ks: seq<int>, cs: seq<Node>, i: nat, c: Inserted)
    requires WellFormed(Internal(ks, cs)) && i < |cs|
    requires WellFormed(c.node) && (c.sibling.Some? ==> SiblingShape(c.sibling.value))
    ensures Output(Absorb(order, ks, cs, i, c)) == EntriesOfChildren(cs[..i]) + Output(c) + EntriesOfChildren(cs[i + 1..])
  {
    if c.sibling.None? {
      ChildrenReplace(cs, i, c.node);
    } else {
      var (sep, right) := Promote(c.sibling.value);
      AbsorbSplitOutput(ks, cs, i, c.node, c.sibling.value);
      InternalNode.SplitIfFullEntries(order, InternalNode.InsertIntoNode(ks, cs[i := c.node], i, sep, right));
    }
  }

  /** `AbsorbOutput` when the child split: the node that takes in the
      promoted key and sibling holds the same pairs, in the same order. */
  lemma AbsorbSplitOutput(ks: seq<int>, cs: seq<Node>, i: nat, l: Node, s: Node)
    requires WellFormed(Internal(ks, cs)) && i < |cs|
    requires WellFormed(l) && SiblingShape(s)
    ensures var (sep, right) := Promote(s);
            Entries(InternalNode.InsertIntoNode(ks, cs[i := l], i, sep, right))
              == EntriesOfChildren(cs[..i]) + (Entries(l) + Entries(s)) + EntriesOfChildren(cs[i + 1..])
  {
    var (sep, right) := Promote(s);
    InternalNode.InsertIntoNodeEntries(ks, cs[i := l], i, sep, right);
    ReplacedPrefixEntries(cs, i, l);
    Regroup(EntriesOfChildren(cs[..i]), Entries(l), Entries(s), EntriesOfChildren(cs[i + 1..]));
  }

  /** Every child of the nodes `Absorb` returns is an old child, the
      child's new receiver, or its promoted sibling. */
  predicate AbsorbedChild(x: Node, cs: seq<Node>, c: Inserted)
    requires c.sibling.Some? ==> SiblingShape(c.sibling.value)
  {
    x in cs || x == c.node || (c.sibling.Some? && x == Promote(c.sibling.value).1)
  }

  lemma AbsorbChildren(order: int, ks: seq<int>, cs: seq<Node>, i: nat, c: Inserted)
    requires WellFormed(Internal(ks, cs)) && i < |cs|
    requires WellFormed(c.node) && (c.sibling.Some? ==> SiblingShape(c.sibling.value))
    ensures var r := Absorb(order, ks, cs, i, c);
            && (forall x :: x in r.node.children ==> AbsorbedChild(x, cs, c))
            && (r.sibling.Some? ==> forall x :: x in Promote(r.sibling.value).1.children ==> AbsorbedChild(x, cs, c))
  {
    UpdateMembers(cs, i, c.node);
    if c.sibling.Some? {
      var (sep, right) := Promote(c.sibling.value);
      InsertAtMembers(cs[i := c.node], i + 1, right);
      InternalNode.SplitIfFullChildren(order, InternalNode.InsertIntoNode(ks, cs[i := c.node], i, sep, right));
    }
  }

  /** `Node.insert` exactly as InternalNode.java writes it: the promoted key
      goes to its own upper-bound position among the separators, which need
      not be the position of the child that split. */
  function InsertAsWritten(order: int, n: Node, key: int, value: string): (r: Inserted)
    requires WellFormed(n)
    ensures WellFormed(r.node) && r.node.Leaf? == n.Leaf?
    ensures r.sibling.Some? ==> SiblingShape(r.sibling.value) && r.sibling.value.Leaf? == n.Leaf?
    decreases n
  {
    match n
    case Leaf(ks, vs) => LeafNode.Insert(order, ks, vs, key, value)
    case Internal(ks, cs) =>
      var i := UpperBound(ks, key);
      AbsorbAsWritten(order, ks, cs, i, InsertAsWritten(order, cs[i], key, value))
  }

  /** `Absorb` as InternalNode.java writes it: the promoted key is filed at
      its own upper-bound position rather than at `i`. */
  function AbsorbAsWritten(order: int, ks: seq<int>, cs: seq<Node>, i: nat, c: Inserted): (r: Inserted)
    requires WellFormed(Internal(ks, cs)) && i < |cs|
    requires WellFormed(c.node) && (c.sibling.Some? ==> SiblingShape(c.sibling.value))
    ensures WellFormed(r.node) && r.node.Internal?
    ensures r.sibling.Some? ==> SiblingShape(r.sibling.value) && r.sibling.value.Internal?
  {
    var cs' := cs[i := c.node];
    if c.sibling.None? then
      Inserted(Internal(ks, cs'), None)
    else
      var (sep, right) := Promote(c.sibling.value);
      InternalNode.SplitIfFull(order, InternalNode.InsertIntoNode(ks, cs', UpperBound(ks, sep), sep, right))
  }

  /** `AbsorbChildren` for the code as written: wherever the promoted key
      is filed, the children of the result are still old children, the
      child's new receiver or its promoted sibling. */
  lemma AbsorbAsWrittenChildren(order: int, ks: seq<int>, cs: seq<Node>, i: nat, c: Inserted)
    requires WellFormed(Internal(ks, cs)) && i < |cs|
    requires WellFormed(c.node) && (c.sibling.Some? ==> SiblingShape(c.sibling.value))
    ensures var r := AbsorbAsWritten(order, ks, cs, i, c);
            && (forall x :: x in r.node.children ==> AbsorbedChild(x, cs, c))
            && (r.sibling.Some? ==> forall x :: x in Promote(r.sibling.value).1.children ==> AbsorbedChild(x, cs, c))
  {
    UpdateMembers(cs, i, c.node);
    if c.sibling.Some? {
      var (sep, right) := Promote(c.sibling.value);
      var p := UpperBound(ks, sep);
      var filed := InternalNode.InsertIntoNode(ks, cs[i := c.node], p, sep, right);
      assert AbsorbAsWritten(order, ks, cs, i, c) == InternalNode.SplitIfFull(order, filed);
      InsertAtMembers(cs[i := c.node], p + 1, right);
      InternalNode.SplitIfFullChildren(order, filed);
    }
  }

  /** `Node.search`: route with the upper-bound scan down to a leaf and scan
      it. Whatever it returns is stored in the subtree under that key. */
  function Search(n: Node, key: int): (r: Option<string>)
    requires WellFormed(n)
    ensures r.Some? ==> Entry(key, r.value) in Entries(n)
    decreases n
  {
    match n
    case Leaf(ks, vs) => LeafNode.Search(ks, vs, key)
    case Internal(ks, cs) =>
      var i := UpperBound(ks, key);
      var r := Search(cs[i], key);
      if r.Some? then EntriesOfChildrenContains(cs, i, Entry(key, r.value)); r else r
  }

  /** `Node.update`: route like `search` and overwrite the value that
      `search` would have returned. It reports whether `search` found the
      key, changes no key, leaves the node as it was on a miss, and a later
      `search` sees the new value for `key` and the old one for every other
      key. */
  function Update(n: Node, key: int, value: string): (r: (Node, bool))
    requires WellFormed(n)
    ensures WellFormed(r.0) && SameKeys(n, r.0)
    ensures r.1 <==> Search(n, key).Some?
    ensures !r.1 ==> r.0 == n
    ensures forall k :: Search(r.0, k) == if k == key && r.1 then Some(value) else Search(n, k)
    decreases n
  {
    match n
    case Leaf(ks, vs) =>
      var (vs', found) := LeafNode.Update(ks, vs, key, value);
      LeafUpdateSearch(ks, vs, key, value);
      (Leaf(ks, vs'), found)
    case Internal(ks, cs) =>
      var i := UpperBound(ks, key);
      var (c, found) := Update(cs[i], key, value);
      assert forall k :: UpperBound(ks, k) == i || k != key;
      assert !found ==> cs[i := c] == cs;
      forall j | 0 <= j < |cs| && j != i ensures SameKeys(cs[j], cs[i := c][j]) {
        SameKeysReflexive(cs[j]);
      }
      (Internal(ks, cs[i := c]), found)
  }

  lemma LeafUpdateSearch(ks: seq<int>, vs: seq<string>, key: int, value: string)
    requires |ks| == |vs|
    ensures var (vs', found) := LeafNode.Update(ks, vs, key, value);
            forall k :: LeafNode.Search(ks, vs', k) == if k == key && found then Some(value) else LeafNode.Search(ks, vs, k)
  {
    var (vs', found) := LeafNode.Update(ks, vs, key, value);
    forall k ensures LeafNode.Search(ks, vs', k) == if k == key && found then Some(value) else LeafNode.Search(ks, vs, k) {
      var f := FindFirst(ks, k);
      if found {
        var i := FindFirst(ks, key);
        assert vs' == vs[i := value];
      }
    }
  }
}
