/** A run that separates the insertion of InternalNode.java from the
    corrected one. With order 3, insert the keys k5, k5, k5, k5, k7, k1, k2
    for any k1 < k2 < k5 < k7 (for instance 5, 5, 5, 5, 7, 1, 2). The last
    insertion splits the left leaf. The code as written files the promoted
    key k5 by its own upper bound, after the separator k5 already there, so
    the new right half lands after the leaf holding k7, and `search(k7)` is
    routed to a leaf without it. */
module RoutingFinding {
  import opened Wrappers
  import opened SortedSeq
  import opened Flat
  import opened Nodes
  import LeafNode
  import InternalNode
  import NodeOps
  import BPlusTreeMemory

  /** The four keys of the run in the order the run needs. */
  predicate Spread(k1: int, k2: int, k5: int, k7: int) {
    k1 < k2 < k5 < k7
  }

  function Run(k1: int, k2: int, k5: int, k7: int): seq<Entry> {
    [Entry(k5, "a"), Entry(k5, "b"), Entry(k5, "c"), Entry(k5, "d"), Entry(k7, "e"), Entry(k1, "f"), Entry(k2, "g")]
  }

  function T(n: Node): BPlusTreeMemory.Tree {
    BPlusTreeMemory.Tree(3, n)
  }

  function After4(k5: int): Node {
    Internal([k5], [Leaf([k5, k5], ["a", "b"]), Leaf([k5, k5], ["c", "d"])])
  }

  function After5(k5: int, k7: int): Node {
    Internal([k5], [Leaf([k5, k5], ["a", "b"]), Leaf([k5, k5, k7], ["c", "d", "e"])])
  }

  function After6(k1: int, k5: int, k7: int): Node {
    Internal([k5], [Leaf([k1, k5, k5], ["f", "a", "b"]), Leaf([k5, k5, k7], ["c", "d", "e"])])
  }

  /** The left leaf of `After6` after it takes k2 and splits. */
  function Step7Child(k1: int, k2: int, k5: int): Inserted {
    Inserted(Leaf([k1, k2], ["f", "g"]), Some(Leaf([k5, k5], ["a", "b"])))
  }

  /** The last insertion as written: the promoted k5 goes to position 1. */
  function After7AsWritten(k1: int, k2: int, k5: int, k7: int): Node {
    Internal([k5, k5], [Leaf([k1, k2], ["f", "g"]), Leaf([k5, k5, k7], ["c", "d", "e"]), Leaf([k5, k5], ["a", "b"])])
  }

  /** The last insertion corrected: the promoted k5 goes next to the split leaf. */
  function After7(k1: int, k2: int, k5: int, k7: int): Node {
    Internal([k5, k5], [Leaf([k1, k2], ["f", "g"]), Leaf([k5, k5], ["a", "b"]), Leaf([k5, k5, k7], ["c", "d", "e"])])
  }

  /** A leaf insertion that does not split. */
  lemma LeafNoSplit(ks: seq<int>, vs: seq<string>, key: int, value: string, i: nat, ks': seq<int>, vs': seq<string>)
    requires |ks| == |vs| && |ks| + 1 <= 3 && i <= |ks|
    requires UpperBound(ks, key) == i
    requires ks' == ks[..i] + [key] + ks[i..] && vs' == vs[..i] + [value] + vs[i..]
    ensures NodeOps.Insert(3, Leaf(ks, vs), key, value) == Inserted(Leaf(ks', vs'), None)
    ensures NodeOps.InsertAsWritten(3, Leaf(ks, vs), key, value) == Inserted(Leaf(ks', vs'), None)
  {
  }

  /** A leaf insertion that overflows a leaf of three and splits it two and two. */
  lemma LeafSplit(ks: seq<int>, vs: seq<string>, key: int, value: string, i: nat, lo: seq<int>, lov: seq<string>, hi: seq<int>, hiv: seq<string>)
    requires |ks| == |vs| == 3 && i <= 3
    requires UpperBound(ks, key) == i
    requires |lo| == |lov| == 2 && |hi| == |hiv| == 2
    requires ks[..i] + [key] + ks[i..] == lo + hi && vs[..i] + [value] + vs[i..] == lov + hiv
    ensures NodeOps.Insert(3, Leaf(ks, vs), key, value) == Inserted(Leaf(lo, lov), Some(Leaf(hi, hiv)))
    ensures NodeOps.InsertAsWritten(3, Leaf(ks, vs), key, value) == Inserted(Leaf(lo, lov), Some(Leaf(hi, hiv)))
  {
    var ks', vs' := lo + hi, lov + hiv;
    assert ks'[..2] == lo && ks'[2..] == hi && vs'[..2] == lov && vs'[2..] == hiv;
  }

  /** One insertion into a root leaf that does not split. */
  lemma RootLeafNoSplit(ks: seq<int>, vs: seq<string>, key: int, value: string, i: nat, ks': seq<int>, vs': seq<string>)
    requires |ks| == |vs| && |ks| + 1 <= 3 && i <= |ks|
    requires UpperBound(ks, key) == i
    requires ks' == ks[..i] + [key] + ks[i..] && vs' == vs[..i] + [value] + vs[i..]
    ensures BPlusTreeMemory.Insert(T(Leaf(ks, vs)), key, value) == T(Leaf(ks', vs'))
    ensures BPlusTreeMemory.InsertAsWritten(T(Leaf(ks, vs)), key, value) == T(Leaf(ks', vs'))
  {
    LeafNoSplit(ks, vs, key, value, i, ks', vs');
  }

  /** An internal node whose routed child does not split only replaces that child. */
  lemma ChildNoSplit(ks: seq<int>, cs: seq<Node>, key: int, value: string, i: nat, c: Node)
    requires WellFormed(Internal(ks, cs)) && i < |cs|
    requires UpperBound(ks, key) == i
    requires NodeOps.Insert(3, cs[i], key, value) == Inserted(c, None)
    requires NodeOps.InsertAsWritten(3, cs[i], key, value) == Inserted(c, None)
    ensures NodeOps.Insert(3, Internal(ks, cs), key, value) == Inserted(Internal(ks, cs[i := c]), None)
    ensures NodeOps.InsertAsWritten(3, Internal(ks, cs), key, value) == Inserted(Internal(ks, cs[i := c]), None)
  {
  }

  /** The first three insertions fill the root leaf without splitting it. */
  lemma Step1(k5: int)
    ensures BPlusTreeMemory.Insert(T(Leaf([], [])), k5, "a") == T(Leaf([k5], ["a"]))
    ensures BPlusTreeMemory.InsertAsWritten(T(Leaf([], [])), k5, "a") == T(Leaf([k5], ["a"]))
  {
    UpperBoundUnique([], k5, 0);
    RootLeafNoSplit([], [], k5, "a", 0, [k5], ["a"]);
  }

  lemma Step2(k5: int)
    ensures BPlusTreeMemory.Insert(T(Leaf([k5], ["a"])), k5, "b") == T(Leaf([k5, k5], ["a", "b"]))
    ensures BPlusTreeMemory.InsertAsWritten(T(Leaf([k5], ["a"])), k5, "b") == T(Leaf([k5, k5], ["a", "b"]))
  {
    UpperBoundUnique([k5], k5, 1);
    RootLeafNoSplit([k5], ["a"], k5, "b", 1, [k5, k5], ["a", "b"]);
  }

  lemma Step3(k5: int)
    ensures BPlusTreeMemory.Insert(T(Leaf([k5, k5], ["a", "b"])), k5, "c") == T(Leaf([k5, k5, k5], ["a", "b", "c"]))
    ensures BPlusTreeMemory.InsertAsWritten(T(Leaf([k5, k5], ["a", "b"])), k5, "c") == T(Leaf([k5, k5, k5], ["a", "b", "c"]))
  {
    UpperBoundUnique([k5, k5], k5, 2);
    RootLeafNoSplit([k5, k5], ["a", "b"], k5, "c", 2, [k5, k5, k5], ["a", "b", "c"]);
  }

  /** The root leaf of three takes a fourth k5 and splits. */
  lemma Step4(k5: int)
    ensures BPlusTreeMemory.Insert(T(Leaf([k5, k5, k5], ["a", "b", "c"])), k5, "d") == T(After4(k5))
    ensures BPlusTreeMemory.InsertAsWritten(T(Leaf([k5, k5, k5], ["a", "b", "c"])), k5, "d") == T(After4(k5))
  {
    UpperBoundUnique([k5, k5, k5], k5, 3);
    LeafSplit([k5, k5, k5], ["a", "b", "c"], k5, "d", 3, [k5, k5], ["a", "b"], [k5, k5], ["c", "d"]);
  }

  lemma Step5(k5: int, k7: int)
    requires k5 < k7
    ensures BPlusTreeMemory.Insert(T(After4(k5)), k7, "e").root == After5(k5, k7)
    ensures BPlusTreeMemory.InsertAsWritten(T(After4(k5)), k7, "e").root == After5(k5, k7)
  {
    UpperBoundUnique([k5], k7, 1);
    UpperBoundUnique([k5, k5], k7, 2);
    LeafNoSplit([k5, k5], ["c", "d"], k7, "e", 2, [k5, k5, k7], ["c", "d", "e"]);
    ChildNoSplit([k5], After4(k5).children, k7, "e", 1, Leaf([k5, k5, k7], ["c", "d", "e"]));
    assert After4(k5).children[1 := Leaf([k5, k5, k7], ["c", "d", "e"])] == After5(k5, k7).children;
  }

  lemma Step6(k1: int, k5: int, k7: int)
    requires k1 < k5
    ensures BPlusTreeMemory.Insert(T(After5(k5, k7)), k1, "f").root == After6(k1, k5, k7)
    ensures BPlusTreeMemory.InsertAsWritten(T(After5(k5, k7)), k1, "f").root == After6(k1, k5, k7)
  {
    UpperBoundUnique([k5], k1, 0);
    UpperBoundUnique([k5, k5], k1, 0);
    LeafNoSplit([k5, k5], ["a", "b"], k1, "f", 0, [k1, k5, k5], ["f", "a", "b"]);
    ChildNoSplit([k5], After5(k5, k7).children, k1, "f", 0, Leaf([k1, k5, k5], ["f", "a", "b"]));
    assert After5(k5, k7).children[0 := Leaf([k1, k5, k5], ["f", "a", "b"])] == After6(k1, k5, k7).children;
  }

  /** The left leaf [k1, k5, k5] takes k2 and splits into [k1, k2] and [k5, k5]. */
  lemma Step7Leaf(k1: int, k2: int, k5: int, k7: int)
    requires k1 < k2 < k5
    ensures NodeOps.Insert(3, After6(k1, k5, k7).children[0], k2, "g") == Step7Child(k1, k2, k5)
  {
    UpperBoundUnique([k1, k5, k5], k2, 1);
    LeafSplit([k1, k5, k5], ["f", "a", "b"], k2, "g", 1, [k1, k2], ["f", "g"], [k5, k5], ["a", "b"]);
  }

  lemma Step7LeafAsWritten(k1: int, k2: int, k5: int, k7: int)
    requires k1 < k2 < k5
    ensures NodeOps.InsertAsWritten(3, After6(k1, k5, k7).children[0], k2, "g") == Step7Child(k1, k2, k5)
  {
    UpperBoundUnique([k1, k5, k5], k2, 1);
    LeafSplit([k1, k5, k5], ["f", "a", "b"], k2, "g", 1, [k1, k2], ["f", "g"], [k5, k5], ["a", "b"]);
  }

  /** One level of the corrected insertion: the routed child's result is absorbed. */
  lemma RouteChild(order: int, ks: seq<int>, cs: seq<Node>, key: int, value: string, i: nat, r: Inserted)
    requires WellFormed(Internal(ks, cs)) && i < |cs| && UpperBound(ks, key) == i
    requires NodeOps.Insert(order, cs[i], key, value) == r
    ensures NodeOps.Insert(order, Internal(ks, cs), key, value) == NodeOps.Absorb(order, ks, cs, i, r)
  {
  }

  /** A leaf right half is absorbed at the split child's position. */
  lemma AbsorbLeafHalf(order: int, ks: seq<int>, cs: seq<Node>, i: nat, c: Node, right: Node)
    requires WellFormed(Internal(ks, cs)) && i < |cs| && WellFormed(c)
    requires right.Leaf? && SiblingShape(right)
    ensures NodeOps.Absorb(order, ks, cs, i, Inserted(c, Some(right))) ==
              InternalNode.SplitIfFull(order, InternalNode.InsertIntoNode(ks, cs[i := c], i, right.keys[0], right))
  {
  }

  /** One level of the insertion as written when the routed leaf child
      splits: the right half goes in at the upper bound of its first key. */
  lemma RouteChildAsWritten(order: int, ks: seq<int>, cs: seq<Node>, key: int, value: string, i: nat, r: Inserted)
    requires WellFormed(Internal(ks, cs)) && i < |cs| && UpperBound(ks, key) == i
    requires NodeOps.InsertAsWritten(order, cs[i], key, value) == r
    ensures NodeOps.InsertAsWritten(order, Internal(ks, cs), key, value) == NodeOps.AbsorbAsWritten(order, ks, cs, i, r)
  {
  }

  lemma AbsorbLeafHalfAsWritten(order: int, ks: seq<int>, cs: seq<Node>, i: nat, c: Node, right: Node)
    requires WellFormed(Internal(ks, cs)) && i < |cs| && WellFormed(c)
    requires right.Leaf? && SiblingShape(right)
    ensures NodeOps.AbsorbAsWritten(order, ks, cs, i, Inserted(c, Some(right))) ==
              InternalNode.SplitIfFull(order, InternalNode.InsertIntoNode(ks, cs[i := c], UpperBound(ks, right.keys[0]), right.keys[0], right))
  {
  }

  /** Filing the promoted k5 with its right half at position `pos` of the
      root of `After6` whose left leaf became [k1, k2]. */
  function Filed(k1: int, k2: int, k5: int, k7: int, pos: nat): Inserted
    requires pos <= 1
  {
    var cs := After6(k1, k5, k7).children[0 := Leaf([k1, k2], ["f", "g"])];
    InternalNode.SplitIfFull(3, InternalNode.InsertIntoNode([k5], cs, pos, k5, Leaf([k5, k5], ["a", "b"])))
  }

  lemma FiledAt0(k1: int, k2: int, k5: int, k7: int)
    ensures Filed(k1, k2, k5, k7, 0) == Inserted(After7(k1, k2, k5, k7), None)
  {
    var cs := After6(k1, k5, k7).children[0 := Leaf([k1, k2], ["f", "g"])];
    assert InsertAt([k5], 0, k5) == [k5, k5];
    assert InsertAt(cs, 1, Leaf([k5, k5], ["a", "b"])) == After7(k1, k2, k5, k7).children;
  }

  lemma FiledAt1(k1: int, k2: int, k5: int, k7: int)
    ensures Filed(k1, k2, k5, k7, 1) == Inserted(After7AsWritten(k1, k2, k5, k7), None)
  {
    var cs := After6(k1, k5, k7).children[0 := Leaf([k1, k2], ["f", "g"])];
    assert InsertAt([k5], 1, k5) == [k5, k5];
    assert InsertAt(cs, 2, Leaf([k5, k5], ["a", "b"])) == After7AsWritten(k1, k2, k5, k7).children;
  }

  lemma Step7Route(cs: seq<Node>, k2: int, k5: int, r: Inserted)
    requires WellFormed(Internal([k5], cs)) && k2 < k5
    requires NodeOps.Insert(3, cs[0], k2, "g") == r
    ensures NodeOps.Insert(3, Internal([k5], cs), k2, "g") == NodeOps.Absorb(3, [k5], cs, 0, r)
  {
    UpperBoundUnique([k5], k2, 0);
    RouteChild(3, [k5], cs, k2, "g", 0, r);
  }


  lemma Step7Absorb(k1: int, k2: int, k5: int, k7: int)
    ensures NodeOps.Absorb(3, [k5], After6(k1, k5, k7).children, 0, Step7Child(k1, k2, k5)) == Filed(k1, k2, k5, k7, 0)
  {
    AbsorbLeafHalf(3, [k5], After6(k1, k5, k7).children, 0, Leaf([k1, k2], ["f", "g"]), Leaf([k5, k5], ["a", "b"]));
  }

  /** `After6` is an internal node over its own children, and well formed. */
  lemma After6Shape(k1: int, k5: int, k7: int)
    ensures After6(k1, k5, k7) == Internal([k5], After6(k1, k5, k7).children)
    ensures WellFormed(Internal([k5], After6(k1, k5, k7).children))
  {
  }

  lemma Step7Node(k1: int, k2: int, k5: int, k7: int)
    requires Spread(k1, k2, k5, k7)
    ensures NodeOps.Insert(3, After6(k1, k5, k7), k2, "g") == Filed(k1, k2, k5, k7, 0)
  {
    After6Shape(k1, k5, k7);
    Step7Leaf(k1, k2, k5, k7);
    Step7Route(After6(k1, k5, k7).children, k2, k5, Step7Child(k1, k2, k5));
    Step7Absorb(k1, k2, k5, k7);
  }


  lemma Step7RouteAsWritten(cs: seq<Node>, k2: int, k5: int, r: Inserted)
    requires WellFormed(Internal([k5], cs)) && k2 < k5
    requires NodeOps.InsertAsWritten(3, cs[0], k2, "g") == r
    ensures NodeOps.InsertAsWritten(3, Internal([k5], cs), k2, "g") == NodeOps.AbsorbAsWritten(3, [k5], cs, 0, r)
  {
    UpperBoundUnique([k5], k2, 0);
    RouteChildAsWritten(3, [k5], cs, k2, "g", 0, r);
  }


  lemma Step7AbsorbAsWritten(k1: int, k2: int, k5: int, k7: int)
    ensures NodeOps.AbsorbAsWritten(3, [k5], After6(k1, k5, k7).children, 0, Step7Child(k1, k2, k5)) == Filed(k1, k2, k5, k7, 1)
  {
    UpperBoundUnique([k5], k5, 1);
    AbsorbLeafHalfAsWritten(3, [k5], After6(k1, k5, k7).children, 0, Leaf([k1, k2], ["f", "g"]), Leaf([k5, k5], ["a", "b"]));
  }

  lemma Step7NodeAsWritten(k1: int, k2: int, k5: int, k7: int)
    requires Spread(k1, k2, k5, k7)
    ensures NodeOps.InsertAsWritten(3, After6(k1, k5, k7), k2, "g") == Filed(k1, k2, k5, k7, 1)
  {
    After6Shape(k1, k5, k7);
    Step7LeafAsWritten(k1, k2, k5, k7);
    Step7RouteAsWritten(After6(k1, k5, k7).children, k2, k5, Step7Child(k1, k2, k5));
    Step7AbsorbAsWritten(k1, k2, k5, k7);
  }

  /** The left leaf splits. The corrected insertion files the promoted k5
      right after the split leaf; as written, it goes after every separator
      equal to it, past the leaf that holds k7. */
  lemma Step7(k1: int, k2: int, k5: int, k7: int)
    requires Spread(k1, k2, k5, k7)
    ensures BPlusTreeMemory.Insert(T(After6(k1, k5, k7)), k2, "g").root == After7(k1, k2, k5, k7)
    ensures BPlusTreeMemory.InsertAsWritten(T(After6(k1, k5, k7)), k2, "g").root == After7AsWritten(k1, k2, k5, k7)
  {
    Step7Node(k1, k2, k5, k7);
    Step7NodeAsWritten(k1, k2, k5, k7);
    FiledAt0(k1, k2, k5, k7);
    FiledAt1(k1, k2, k5, k7);
  }

  /** The trees the run passes through with the corrected insertion. */
  function States(k1: int, k2: int, k5: int, k7: int): seq<BPlusTreeMemory.Tree> {
    [T(Leaf([], [])), T(Leaf([k5], ["a"])), T(Leaf([k5, k5], ["a", "b"])), T(Leaf([k5, k5, k5], ["a", "b", "c"])),
     T(After4(k5)), T(After5(k5, k7)), T(After6(k1, k5, k7)), T(After7(k1, k2, k5, k7))]
  }

  /** The same run with the insertion as written differs only in the last tree. */
  function StatesAsWritten(k1: int, k2: int, k5: int, k7: int): seq<BPlusTreeMemory.Tree> {
    States(k1, k2, k5, k7)[7 := T(After7AsWritten(k1, k2, k5, k7))]
  }

  /** A fold of insertions that goes through the trees `ts` one step at a
      time ends in the last of them. */
  lemma {:induction false} InsertAllSteps(ts: seq<BPlusTreeMemory.Tree>, es: seq<Entry>)
    requires |ts| == |es| + 1
    requires forall k :: 0 <= k < |ts| ==> WellFormed(ts[k].root)
    requires forall k :: 0 <= k < |es| ==> BPlusTreeMemory.Insert(ts[k], es[k].key, es[k].value) == ts[k + 1]
    ensures BPlusTreeMemory.InsertAll(ts[0], es) == ts[|es|]
    decreases |es|
  {
    if |es| > 0 {
      InsertAllSteps(ts[1..], es[1..]);
    }
  }

  lemma {:induction false} InsertAllAsWrittenSteps(ts: seq<BPlusTreeMemory.Tree>, es: seq<Entry>)
    requires |ts| == |es| + 1
    requires forall k :: 0 <= k < |ts| ==> WellFormed(ts[k].root)
    requires forall k :: 0 <= k < |es| ==> BPlusTreeMemory.InsertAsWritten(ts[k], es[k].key, es[k].value) == ts[k + 1]
    ensures BPlusTreeMemory.InsertAllAsWritten(ts[0], es) == ts[|es|]
    decreases |es|
  {
    if |es| > 0 {
      InsertAllAsWrittenSteps(ts[1..], es[1..]);
    }
  }

  /** One lemma per insertion of the run, each unfolding only its own pair
      of states; `StepAt` and `StepAtAsWritten` dispatch on the index. */
  lemma StepAt0(k1: int, k2: int, k5: int, k7: int, k: nat)
    requires Spread(k1, k2, k5, k7) && k == 0
    ensures var ts, e := States(k1, k2, k5, k7), Run(k1, k2, k5, k7)[k];
            BPlusTreeMemory.Insert(ts[k], e.key, e.value) == ts[k + 1]
  {
    Step1(k5);
  }

  lemma StepAt1(k1: int, k2: int, k5: int, k7: int, k: nat)
    requires Spread(k1, k2, k5, k7) && k == 1
    ensures var ts, e := States(k1, k2, k5, k7), Run(k1, k2, k5, k7)[k];
            BPlusTreeMemory.Insert(ts[k], e.key, e.value) == ts[k + 1]
  {
    Step2(k5);
  }

  lemma StepAt2(k1: int, k2: int, k5: int, k7: int, k: nat)
    requires Spread(k1, k2, k5, k7) && k == 2
    ensures var ts, e := States(k1, k2, k5, k7), Run(k1, k2, k5, k7)[k];
            BPlusTreeMemory.Insert(ts[k], e.key, e.value) == ts[k + 1]
  {
    Step3(k5);
  }

  lemma StepAt3(k1: int, k2: int, k5: int, k7: int, k: nat)
    requires Spread(k1, k2, k5, k7) && k == 3
    ensures var ts, e := States(k1, k2, k5, k7), Run(k1, k2, k5, k7)[k];
            BPlusTreeMemory.Insert(ts[k], e.key, e.value) == ts[k + 1]
  {
    Step4(k5);
  }

  lemma StepAt4(k1: int, k2: int, k5: int, k7: int, k: nat)
    requires Spread(k1, k2, k5, k7) && k == 4
    ensures var ts, e := States(k1, k2, k5, k7), Run(k1, k2, k5, k7)[k];
            BPlusTreeMemory.Insert(ts[k], e.key, e.value) == ts[k + 1]
  {
    Step5(k5, k7);
  }

  lemma StepAt5(k1: int, k2: int, k5: int, k7: int, k: nat)
    requires Spread(k1, k2, k5, k7) && k == 5
    ensures var ts, e := States(k1, k2, k5, k7), Run(k1, k2, k5, k7)[k];
            BPlusTreeMemory.Insert(ts[k], e.key, e.value) == ts[k + 1]
  {
    Step6(k1, k5, k7);
  }

  lemma StepAt6(k1: int, k2: int, k5: int, k7: int, k: nat)
    requires Spread(k1, k2, k5, k7) && k == 6
    ensures var ts, e := States(k1, k2, k5, k7), Run(k1, k2, k5, k7)[k];
            BPlusTreeMemory.Insert(ts[k], e.key, e.value) == ts[k + 1]
  {
    Step7(k1, k2, k5, k7);
  }
  /** Insertion `k` of the run takes the tree from state `k` to state `k + 1`. */
  lemma StepAt(k1: int, k2: int, k5: int, k7: int, k: nat)
    requires Spread(k1, k2, k5, k7) && k < 7
    ensures var ts, e := States(k1, k2, k5, k7), Run(k1, k2, k5, k7)[k];
            BPlusTreeMemory.Insert(ts[k], e.key, e.value) == ts[k + 1]
  {
    if k == 0 {
      StepAt0(k1, k2, k5, k7, k);
    } else if k == 1 {
      StepAt1(k1, k2, k5, k7, k);
    } else if k == 2 {
      StepAt2(k1, k2, k5, k7, k);
    } else if k == 3 {
      StepAt3(k1, k2, k5, k7, k);
    } else if k == 4 {
      StepAt4(k1, k2, k5, k7, k);
    } else if k == 5 {
      StepAt5(k1, k2, k5, k7, k);
    } else {
      StepAt6(k1, k2, k5, k7, k);
    }
  }

  lemma StepAtAsWritten0(k1: int, k2: int, k5: int, k7: int, k: nat)
    requires Spread(k1, k2, k5, k7) && k == 0
    ensures var ts, e := StatesAsWritten(k1, k2, k5, k7), Run(k1, k2, k5, k7)[k];
            BPlusTreeMemory.InsertAsWritten(ts[k], e.key, e.value) == ts[k + 1]
  {
    Step1(k5);
  }

  lemma StepAtAsWritten1(k1: int, k2: int, k5: int, k7: int, k: nat)
    requires Spread(k1, k2, k5, k7) && k == 1
    ensures var ts, e := StatesAsWritten(k1, k2, k5, k7), Run(k1, k2, k5, k7)[k];
            BPlusTreeMemory.InsertAsWritten(ts[k], e.key, e.value) == ts[k + 1]
  {
    Step2(k5);
  }

  lemma StepAtAsWritten2(k1: int, k2: int, k5: int, k7: int, k: nat)
    requires Spread(k1, k2, k5, k7) && k == 2
    ensures var ts, e := StatesAsWritten(k1, k2, k5, k7), Run(k1, k2, k5, k7)[k];
            BPlusTreeMemory.InsertAsWritten(ts[k], e.key, e.value) == ts[k + 1]
  {
    Step3(k5);
  }

  lemma StepAtAsWritten3(k1: int, k2: int, k5: int, k7: int, k: nat)
    requires Spread(k1, k2, k5, k7) && k == 3
    ensures var ts, e := StatesAsWritten(k1, k2, k5, k7), Run(k1, k2, k5, k7)[k];
            BPlusTreeMemory.InsertAsWritten(ts[k], e.key, e.value) == ts[k + 1]
  {
    Step4(k5);
  }

  lemma StepAtAsWritten4(k1: int, k2: int, k5: int, k7: int, k: nat)
    requires Spread(k1, k2, k5, k7) && k == 4
    ensures var ts, e := StatesAsWritten(k1, k2, k5, k7), Run(k1, k2, k5, k7)[k];
            BPlusTreeMemory.InsertAsWritten(ts[k], e.key, e.value) == ts[k + 1]
  {
    Step5(k5, k7);
  }

  lemma StepAtAsWritten5(k1: int, k2: int, k5: int, k7: int, k: nat)
    requires Spread(k1, k2, k5, k7) && k == 5
    ensures var ts, e := StatesAsWritten(k1, k2, k5, k7), Run(k1, k2, k5, k7)[k];
            BPlusTreeMemory.InsertAsWritten(ts[k], e.key, e.value) == ts[k + 1]
  {
    Step6(k1, k5, k7);
  }

  lemma StepAtAsWritten6(k1: int, k2: int, k5: int, k7: int, k: nat)
    requires Spread(k1, k2, k5, k7) && k == 6
    ensures var ts, e := StatesAsWritten(k1, k2, k5, k7), Run(k1, k2, k5, k7)[k];
            BPlusTreeMemory.InsertAsWritten(ts[k], e.key, e.value) == ts[k + 1]
  {
    Step7(k1, k2, k5, k7);
  }
  /** The same with the insertion as written. */
  lemma StepAtAsWritten(k1: int, k2: int, k5: int, k7: int, k: nat)
    requires Spread(k1, k2, k5, k7) && k < 7
    ensures var ts, e := StatesAsWritten(k1, k2, k5, k7), Run(k1, k2, k5, k7)[k];
            BPlusTreeMemory.InsertAsWritten(ts[k], e.key, e.value) == ts[k + 1]
  {
    if k == 0 {
      StepAtAsWritten0(k1, k2, k5, k7, k);
    } else if k == 1 {
      StepAtAsWritten1(k1, k2, k5, k7, k);
    } else if k == 2 {
      StepAtAsWritten2(k1, k2, k5, k7, k);
    } else if k == 3 {
      StepAtAsWritten3(k1, k2, k5, k7, k);
    } else if k == 4 {
      StepAtAsWritten4(k1, k2, k5, k7, k);
    } else if k == 5 {
      StepAtAsWritten5(k1, k2, k5, k7, k);
    } else {
      StepAtAsWritten6(k1, k2, k5, k7, k);
    }
  }

  /** The whole run with the corrected insertion. */
  lemma RunCorrected(k1: int, k2: int, k5: int, k7: int)
    requires Spread(k1, k2, k5, k7)
    ensures BPlusTreeMemory.InsertAll(BPlusTreeMemory.New(3).value, Run(k1, k2, k5, k7)).root == After7(k1, k2, k5, k7)
  {
    var ts, es := States(k1, k2, k5, k7), Run(k1, k2, k5, k7);
    forall k | 0 <= k < |es|
      ensures BPlusTreeMemory.Insert(ts[k], es[k].key, es[k].value) == ts[k + 1]
    {
      StepAt(k1, k2, k5, k7, k);
    }
    InsertAllSteps(ts, es);
  }

  /** The whole run with the insertion as written. */
  lemma RunAsWritten(k1: int, k2: int, k5: int, k7: int)
    requires Spread(k1, k2, k5, k7)
    ensures BPlusTreeMemory.InsertAllAsWritten(BPlusTreeMemory.New(3).value, Run(k1, k2, k5, k7)).root == After7AsWritten(k1, k2, k5, k7)
  {
    var ts, es := StatesAsWritten(k1, k2, k5, k7), Run(k1, k2, k5, k7);
    forall k | 0 <= k < |es|
      ensures BPlusTreeMemory.InsertAsWritten(ts[k], es[k].key, es[k].value) == ts[k + 1]
    {
      StepAtAsWritten(k1, k2, k5, k7, k);
    }
    InsertAllAsWrittenSteps(ts, es);
  }

  lemma AsWrittenStored(k1: int, k2: int, k5: int, k7: int)
    ensures Entry(k7, "e") in Entries(After7AsWritten(k1, k2, k5, k7))
  {
    var n := After7AsWritten(k1, k2, k5, k7);
    assert Entries(n.children[1]) == [Entry(k5, "c"), Entry(k5, "d"), Entry(k7, "e")];
    EntriesOfChildrenContains(n.children, 1, Entry(k7, "e"));
  }

  lemma AsWrittenMisses(k1: int, k2: int, k5: int, k7: int)
    requires Spread(k1, k2, k5, k7)
    ensures NodeOps.Search(After7AsWritten(k1, k2, k5, k7), k7) == None
  {
    UpperBoundUnique([k5, k5], k7, 2);
    FindFirstUnique([k5, k5], k7, 2);
  }

  lemma AsWrittenUnordered(k1: int, k2: int, k5: int, k7: int)
    requires Spread(k1, k2, k5, k7)
    ensures !Ordered(After7AsWritten(k1, k2, k5, k7))
  {
    var n := After7AsWritten(k1, k2, k5, k7);
    assert n.children[1].keys[2] == k7;
    assert !Under(n.children[1], n.keys[1]);
  }

  /** As written: for any k1 < k2 < k5 < k7, after the run the pair (k7, "e")
      is stored but `search(k7)` returns nothing, and the tree is no longer
      ordered. */
  lemma AsWrittenLosesKey(k1: int, k2: int, k5: int, k7: int)
    requires Spread(k1, k2, k5, k7)
    ensures var t := BPlusTreeMemory.InsertAllAsWritten(BPlusTreeMemory.New(3).value, Run(k1, k2, k5, k7));
            && Entry(k7, "e") in Entries(t.root)
            && BPlusTreeMemory.Search(t, k7) == None
            && !Ordered(t.root)
  {
    RunAsWritten(k1, k2, k5, k7);
    AsWrittenStored(k1, k2, k5, k7);
    AsWrittenMisses(k1, k2, k5, k7);
    AsWrittenUnordered(k1, k2, k5, k7);
  }

  lemma CorrectedHits(k1: int, k2: int, k5: int, k7: int)
    requires Spread(k1, k2, k5, k7)
    ensures NodeOps.Search(After7(k1, k2, k5, k7), k7) == Some("e")
  {
    UpperBoundUnique([k5, k5], k7, 2);
    FindFirstUnique([k5, k5, k7], k7, 2);
  }

  /** Corrected: the same run finds k7. */
  lemma CorrectedFindsKey(k1: int, k2: int, k5: int, k7: int)
    requires Spread(k1, k2, k5, k7)
    ensures var t := BPlusTreeMemory.InsertAll(BPlusTreeMemory.New(3).value, Run(k1, k2, k5, k7));
            BPlusTreeMemory.Search(t, k7) == Some("e")
  {
    RunCorrected(k1, k2, k5, k7);
    CorrectedHits(k1, k2, k5, k7);
  }

  /** The instance 5, 5, 5, 5, 7, 1, 2. */
  lemma AsWrittenLosesSeven()
    ensures var t := BPlusTreeMemory.InsertAllAsWritten(BPlusTreeMemory.New(3).value, Run(1, 2, 5, 7));
            && Entry(7, "e") in Entries(t.root)
            && BPlusTreeMemory.Search(t, 7) == None
  {
    AsWrittenLosesKey(1, 2, 5, 7);
  }
}
