/** The node state shared by leaves and internal nodes (Node.java), as an
    immutable sum type, with the structural invariants of the tree.

    A Java `InternalNode` also inherits a `values` list that nothing ever
    writes; the `Internal` variant simply has no such field. Every Java node
    keeps a copy of the tree's order; here the order is a parameter of the
    operations instead. */
module Nodes {
  import opened Wrappers
  import opened SortedSeq
  import opened Flat

  datatype Node =
    | Leaf(keys: seq<int>, values: seq<string>)
    | Internal(keys: seq<int>, children: seq<Node>)

  /** What `Node.insert` hands back: the receiver after the insertion (the
      left half when it split) and the newly created right sibling, if any
      (Java returns the sibling, or null when there was no split). */
  datatype Inserted = Inserted(node: Node, sibling: Option<Node>)

  /** Positional pairing in leaves and `children.size == keys.size + 1` in
      internal nodes, all the way down. */
  predicate WellFormed(n: Node)
    decreases n
  {
    match n
    case Leaf(ks, vs) => |ks| == |vs|
    case Internal(ks, cs) =>
      |cs| == |ks| + 1 && forall i :: 0 <= i < |cs| ==> WellFormed(cs[i])
  }

  /** A right sibling as a split returns it: a non-empty key list, and for an
      internal sibling one key too many (its first key has not been promoted
      yet, so `children.size == keys.size`). */
  predicate SiblingShape(s: Node) {
    && |s.keys| > 0
    && match s
       case Leaf(ks, vs) => |ks| == |vs|
       case Internal(ks, cs) => |cs| == |ks| && forall i :: 0 <= i < |cs| ==> WellFormed(cs[i])
  }

  /** The (key, value) pairs of the subtree in leaf order. */
  function Entries(n: Node): seq<Entry>
    decreases n, 1
  {
    match n
    case Leaf(ks, vs) => Pairs(ks, vs)
    case Internal(_, cs) => EntriesOfChildren(cs)
  }

  function EntriesOfChildren(cs: seq<Node>): seq<Entry>
    decreases cs, 0
  {
    if |cs| == 0 then [] else Entries(cs[0]) + EntriesOfChildren(cs[1..])
  }

  /** The pairs held by an insertion's result: the receiver's, then the
      new sibling's. */
  function Output(r: Inserted): seq<Entry> {
    Entries(r.node) + (if r.sibling.Some? then Entries(r.sibling.value) else [])
  }

  /** The promotion rule shared by `InternalNode.insert` and the tree's root
      handler: the separator is the sibling's first key, and it is removed
      from the sibling only when the sibling is an internal node. */
  function Promote(s: Node): (r: (int, Node))
    requires SiblingShape(s)
    ensures r.0 == s.keys[0]
    ensures WellFormed(r.1)
    ensures r.1.Leaf? == s.Leaf?
    ensures s.Leaf? ==> r.1 == s
    ensures s.Internal? ==> r.1.keys == s.keys[1..] && r.1.children == s.children
    ensures Entries(r.1) == Entries(s)
  {
    match s
    case Leaf(_, _) => (s.keys[0], s)
    case Internal(ks, cs) => (ks[0], Internal(ks[1..], cs))
  }

  /** Two nodes with the same shape and the same keys everywhere; only leaf
      values may differ. This is all that `update` changes. */
  predicate SameKeys(a: Node, b: Node)
    decreases a
  {
    match a
    case Leaf(ks, vs) => b.Leaf? && b.keys == ks && |b.values| == |vs|
    case Internal(ks, cs) =>
      && b.Internal? && b.keys == ks && |b.children| == |cs|
      && forall i :: 0 <= i < |cs| ==> SameKeys(cs[i], b.children[i])
  }

  lemma {:induction false} SameKeysReflexive(a: Node)
    ensures SameKeys(a, a)
    decreases a
  {
    if a.Internal? {
      forall i | 0 <= i < |a.children| ensures SameKeys(a.children[i], a.children[i]) {
        SameKeysReflexive(a.children[i]);
      }
    }
  }

  // ---- bounds and ordering ----

  /** Every key in the subtree (leaf keys and separators) is at most `b`. */
  predicate Under(n: Node, b: int)
    decreases n
  {
    && (forall m :: 0 <= m < |n.keys| ==> n.keys[m] <= b)
    && (n.Internal? ==> forall i :: 0 <= i < |n.children| ==> Under(n.children[i], b))
  }

  /** Every key in the subtree (leaf keys and separators) is at least `b`. */
  predicate Over(n: Node, b: int)
    decreases n
  {
    && (forall m :: 0 <= m < |n.keys| ==> b <= n.keys[m])
    && (n.Internal? ==> forall i :: 0 <= i < |n.children| ==> Over(n.children[i], b))
  }

  /** Keys are sorted in every node, and each separator bounds its two
      neighbouring subtrees: keys left of `keys[i]` are at most `keys[i]`,
      keys right of it are at least `keys[i]` (equal keys may sit on both
      sides, because duplicates are allowed). */
  predicate Ordered(n: Node)
    decreases n
  {
    match n
    case Leaf(ks, _) => Sorted(ks)
    case Internal(ks, cs) =>
      && Sorted(ks)
      && (forall i :: 0 <= i < |cs| ==> Ordered(cs[i]))
      && (forall i :: 0 <= i < |ks| && i < |cs| ==> Under(cs[i], ks[i]))
      && (forall i :: 0 <= i < |ks| && i + 1 < |cs| ==> Over(cs[i + 1], ks[i]))
  }

  /** Every child holds at least one pair, and every separator is the first
      key stored in the subtree to its right (it was that subtree's first
      key when it was promoted). */
  predicate Anchored(n: Node)
    decreases n
  {
    match n
    case Leaf(_, _) => true
    case Internal(ks, cs) =>
      && (forall i :: 0 <= i < |cs| ==> |Entries(cs[i])| > 0 && Anchored(cs[i]))
      && (forall i :: 0 <= i < |ks| && i + 1 < |cs| ==> Entries(cs[i + 1])[0].key == ks[i])
  }

  // ---- capacity and balance ----

  /** A leaf holds at most `order` keys, an internal node at most `order - 1`. */
  predicate WithinCapacity(order: int, n: Node)
    decreases n
  {
    match n
    case Leaf(ks, _) => |ks| <= order
    case Internal(ks, cs) =>
      |ks| <= order - 1 && forall i :: 0 <= i < |cs| ==> WithinCapacity(order, cs[i])
  }

  /** Distance from the node to its leftmost leaf. */
  function Height(n: Node): nat
    decreases n
  {
    match n
    case Leaf(_, _) => 0
    case Internal(_, cs) => if |cs| == 0 then 1 else 1 + Height(cs[0])
  }

  /** Every leaf of the subtree is exactly `h` levels below the node. */
  predicate Balanced(n: Node, h: nat)
    decreases n
  {
    match n
    case Leaf(_, _) => h == 0
    case Internal(_, cs) => h > 0 && forall i :: 0 <= i < |cs| ==> Balanced(cs[i], h - 1)
  }

  // ---- lemmas about the flat view ----

  lemma {:induction false} EntriesOfChildrenAppend(a: seq<Node>, b: seq<Node>)
    ensures EntriesOfChildren(a + b) == EntriesOfChildren(a) + EntriesOfChildren(b)
    decreases |a|
  {
    if |a| == 0 {
      assert a + b == b;
    } else {
      assert (a + b)[1..] == a[1..] + b;
      EntriesOfChildrenAppend(a[1..], b);
    }
  }

  lemma EntriesOfChildrenSingle(c: Node)
    ensures EntriesOfChildren([c]) == Entries(c)
  {
    assert [c][1..] == [];
  }

  lemma {:induction false} EntriesOfChildrenContains(cs: seq<Node>, i: nat, x: Entry)
    requires i < |cs| && x in Entries(cs[i])
    ensures x in EntriesOfChildren(cs)
    decreases |cs|
  {
    if i > 0 {
      assert cs[1..][i - 1] == cs[i];
      EntriesOfChildrenContains(cs[1..], i - 1, x);
    }
  }

  /** Every pair of an internal node comes from one of its children. */
  lemma {:induction false} EntriesOfChildrenMember(cs: seq<Node>, x: Entry)
    requires x in EntriesOfChildren(cs)
    ensures exists i :: 0 <= i < |cs| && x in Entries(cs[i])
    decreases |cs|
  {
    if x !in Entries(cs[0]) {
      EntriesOfChildrenMember(cs[1..], x);
      var i :| 0 <= i < |cs[1..]| && x in Entries(cs[1..][i]);
      assert cs[1..][i] == cs[i + 1];
    }
  }

  lemma {:induction false} EntriesOfChildrenNonEmpty(cs: seq<Node>, i: nat)
    requires i < |cs|
    requires |Entries(cs[i])| > 0
    ensures |EntriesOfChildren(cs)| > 0
    decreases |cs|
  {
    if i > 0 {
      assert cs[1..][i - 1] == cs[i];
      EntriesOfChildrenNonEmpty(cs[1..], i - 1);
    }
  }

  /** The pairs of a subtree that is `Under(b)` all have keys at most `b`. */
  lemma {:induction false} UnderEntries(n: Node, b: int)
    requires Under(n, b)
    ensures forall x :: x in Entries(n) ==> x.key <= b
    decreases n
  {
    forall x | x in Entries(n) ensures x.key <= b {
      match n
      case Leaf(ks, vs) =>
        var p :| 0 <= p < |Entries(n)| && Entries(n)[p] == x;
      case Internal(_, cs) =>
        EntriesOfChildrenMember(cs, x);
        var i :| 0 <= i < |cs| && x in Entries(cs[i]);
        UnderEntries(cs[i], b);
    }
  }

  /** The pairs of a subtree that is `Over(b)` all have keys at least `b`. */
  lemma {:induction false} OverEntries(n: Node, b: int)
    requires Over(n, b)
    ensures forall x :: x in Entries(n) ==> b <= x.key
    decreases n
  {
    forall x | x in Entries(n) ensures b <= x.key {
      match n
      case Leaf(ks, vs) =>
        var p :| 0 <= p < |Entries(n)| && Entries(n)[p] == x;
      case Internal(_, cs) =>
        EntriesOfChildrenMember(cs, x);
        var i :| 0 <= i < |cs| && x in Entries(cs[i]);
        OverEntries(cs[i], b);
    }
  }

  lemma {:induction false} UnderWeaken(n: Node, a: int, b: int)
    requires Under(n, a) && a <= b
    ensures Under(n, b)
    decreases n
  {
    if n.Internal? {
      forall i | 0 <= i < |n.children| ensures Under(n.children[i], b) {
        UnderWeaken(n.children[i], a, b);
      }
    }
  }

  lemma {:induction false} OverWeaken(n: Node, a: int, b: int)
    requires Over(n, a) && b <= a
    ensures Over(n, b)
    decreases n
  {
    if n.Internal? {
      forall i | 0 <= i < |n.children| ensures Over(n.children[i], b) {
        OverWeaken(n.children[i], a, b);
      }
    }
  }

  /** A balanced, well-formed subtree has every leaf at depth `Height`. */
  lemma {:induction false} BalancedHeight(n: Node, h: nat)
    requires WellFormed(n) && Balanced(n, h)
    ensures Height(n) == h
    decreases n
  {
    if n.Internal? {
      BalancedHeight(n.children[0], h - 1);
    }
  }

  /** The pairs of an internal node, split around child `i`. */
  lemma ChildrenAround(cs: seq<Node>, i: nat)
    requires i < |cs|
    ensures EntriesOfChildren(cs) == EntriesOfChildren(cs[..i]) + Entries(cs[i]) + EntriesOfChildren(cs[i + 1..])
  {
    SplitAround(cs, i);
    EntriesOfChildrenAppend(cs[..i] + [cs[i]], cs[i + 1..]);
    EntriesOfChildrenAppend(cs[..i], [cs[i]]);
    EntriesOfChildrenSingle(cs[i]);
  }

  /** After child `i` is replaced, the children up to `i` hold the old
      pairs left of `i` followed by the new child's, and the children after
      `i` are untouched. */
  lemma ReplacedPrefixEntries(cs: seq<Node>, i: nat, c: Node)
    requires i < |cs|
    ensures EntriesOfChildren(cs[i := c][..i + 1]) == EntriesOfChildren(cs[..i]) + Entries(c)
    ensures cs[i := c][i + 1..] == cs[i + 1..]
  {
    UpdateAround(cs, i, c);
    EntriesOfChildrenAppend(cs[..i], [c]);
    EntriesOfChildrenSingle(c);
  }

  lemma ChildrenReplace(cs: seq<Node>, i: nat, c: Node)
    requires i < |cs|
    ensures EntriesOfChildren(cs[i := c]) == EntriesOfChildren(cs[..i]) + Entries(c) + EntriesOfChildren(cs[i + 1..])
  {
    ChildrenAround(cs[i := c], i);
    UpdateAround(cs, i, c);
  }

  /** The first pair of an internal node is the first pair of its first child. */
  lemma ChildrenHead(cs: seq<Node>)
    requires |cs| > 0 && |Entries(cs[0])| > 0
    ensures |EntriesOfChildren(cs)| > 0 && EntriesOfChildren(cs)[0] == Entries(cs[0])[0]
  {
  }

  /** An internal node built from some of the keys and children of another
      inherits its bounds. */
  lemma {:induction false} BoundsOfPart(n: Node, m: Node, b: int)
    requires n.Internal? && m.Internal?
    requires forall k :: k in m.keys ==> k in n.keys
    requires forall c :: c in m.children ==> c in n.children
    ensures Under(n, b) ==> Under(m, b)
    ensures Over(n, b) ==> Over(m, b)
  {
    if Under(n, b) {
      forall i | 0 <= i < |m.children| ensures Under(m.children[i], b) {
        assert m.children[i] in m.children;
      }
      forall j | 0 <= j < |m.keys| ensures m.keys[j] <= b {
        assert m.keys[j] in m.keys;
      }
    }
    if Over(n, b) {
      forall i | 0 <= i < |m.children| ensures Over(m.children[i], b) {
        assert m.children[i] in m.children;
      }
      forall j | 0 <= j < |m.keys| ensures b <= m.keys[j] {
        assert m.keys[j] in m.keys;
      }
    }
  }
}
