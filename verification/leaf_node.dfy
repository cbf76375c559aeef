/** LeafNode.java: a leaf keeps parallel `keys`/`values` lists, inserts at the
    upper-bound position, splits in half when it holds more than `order`
    keys, and answers `search`/`update` with a linear first-match scan. */
module LeafNode {
  import opened Wrappers
  import opened SortedSeq
  import opened Flat
  import opened Nodes

  lemma KeysOfPairs(ks: seq<int>, vs: seq<string>)
    requires |ks| == |vs|
    ensures KeysOf(Pairs(ks, vs)) == ks
  {
  }

  lemma PairsSplit(ks: seq<int>, vs: seq<string>, mid: nat)
    requires |ks| == |vs| && mid <= |ks|
    ensures Pairs(ks, vs) == Pairs(ks[..mid], vs[..mid]) + Pairs(ks[mid..], vs[mid..])
  {
  }

  lemma PairsInsertAt(ks: seq<int>, vs: seq<string>, i: nat, key: int, value: string)
    requires |ks| == |vs| && i <= |ks|
    ensures Pairs(InsertAt(ks, i, key), InsertAt(vs, i, value)) == InsertAt(Pairs(ks, vs), i, Entry(key, value))
  {
  }

  /** `insertIntoNode`: the pair goes after every key that is at most `key`,
      so keys stay sorted and equal keys keep insertion order. */
  function InsertIntoNode(ks: seq<int>, vs: seq<string>, key: int, value: string): (r: (seq<int>, seq<string>))
    requires |ks| == |vs|
    ensures |r.0| == |ks| + 1 && |r.1| == |vs| + 1
    ensures Pairs(r.0, r.1) == InsertSorted(Pairs(ks, vs), Entry(key, value))
    ensures Sorted(ks) ==> Sorted(r.0)
  {
    var i := UpperBound(ks, key);
    KeysOfPairs(ks, vs);
    PairsInsertAt(ks, vs, i, key, value);
    InsertAtUpperBoundSorted(ks, key);
    (InsertAt(ks, i, key), InsertAt(vs, i, value))
  }

  /** `splitLeafNode`: the receiver keeps `[0, mid)`, the new sibling gets
      `[mid, size)` including its first key, which stays as data. */
  function SplitLeafNode(ks: seq<int>, vs: seq<string>): (r: Inserted)
    requires |ks| == |vs| && |ks| > 0
    ensures r.node.Leaf? && r.sibling.Some? && r.sibling.value.Leaf?
    ensures r.node.keys + r.sibling.value.keys == ks
    ensures r.node.values + r.sibling.value.values == vs
    ensures |r.node.keys| == |ks| / 2
    ensures WellFormed(r.node) && SiblingShape(r.sibling.value)
    ensures Output(r) == Pairs(ks, vs)
  {
    var mid := |ks| / 2;
    PairsSplit(ks, vs, mid);
    SplitAt(ks, mid);
    SplitAt(vs, mid);
    Inserted(Leaf(ks[..mid], vs[..mid]), Some(Leaf(ks[mid..], vs[mid..])))
  }

  /** A split of a sorted leaf leaves both halves sorted, with every key of
      the receiver at most the sibling's first key. */
  lemma SplitLeafSorted(ks: seq<int>, vs: seq<string>)
    requires |ks| == |vs| && |ks| > 0
    ensures var r := SplitLeafNode(ks, vs);
            Sorted(ks) ==>
              && Sorted(r.node.keys) && Sorted(r.sibling.value.keys)
              && forall m :: 0 <= m < |r.node.keys| ==> r.node.keys[m] <= r.sibling.value.keys[0]
  {
    SortedSplit(ks, |ks| / 2);
  }

  /** `LeafNode.insert`: insert, then split when the leaf holds more than
      `order` keys. */
  function Insert(order: int, ks: seq<int>, vs: seq<string>, key: int, value: string): (r: Inserted)
    requires |ks| == |vs|
    ensures r.node.Leaf? && WellFormed(r.node)
    ensures r.sibling.None? <==> |ks| + 1 <= order
    ensures r.sibling.Some? ==> r.sibling.value.Leaf? && SiblingShape(r.sibling.value)
    ensures Output(r) == InsertSorted(Pairs(ks, vs), Entry(key, value))
    ensures Sorted(ks) ==> Sorted(r.node.keys) && (r.sibling.Some? ==> Sorted(r.sibling.value.keys))
    ensures Sorted(ks) && r.sibling.Some? ==>
              forall m :: 0 <= m < |r.node.keys| ==> r.node.keys[m] <= r.sibling.value.keys[0]
  {
    var (ks', vs') := InsertIntoNode(ks, vs, key, value);
    if |ks'| <= order then
      Inserted(Leaf(ks', vs'), None)
    else
      SplitLeafSorted(ks', vs');
      SplitLeafNode(ks', vs')
  }

  /** After a split from `order + 1` keys both halves hold at most `order`
      keys, and the receiver is never left empty. */
  lemma InsertCapacity(order: int, ks: seq<int>, vs: seq<string>, key: int, value: string)
    requires |ks| == |vs| && 1 <= order
    ensures var r := Insert(order, ks, vs, key, value);
            && 0 < |r.node.keys|
            && (|ks| <= order ==> |r.node.keys| <= order && (r.sibling.Some? ==> |r.sibling.value.keys| <= order))
  {
    var n := |InsertIntoNode(ks, vs, key, value).0|;
    assert n == |ks| + 1;
    if order < n {
      assert |Insert(order, ks, vs, key, value).node.keys| == n / 2;
    }
  }

  /** Insertion brings in no key other than the new one: every key of the
      receiver and of the sibling is `key` or was already in the leaf. */
  lemma InsertKeysFrom(order: int, ks: seq<int>, vs: seq<string>, key: int, value: string)
    requires |ks| == |vs|
    ensures var r := Insert(order, ks, vs, key, value);
            && (forall k :: k in r.node.keys ==> k == key || k in ks)
            && (r.sibling.Some? ==> forall k :: k in r.sibling.value.keys ==> k == key || k in ks)
  {
    var i := UpperBound(ks, key);
    var ks' := InsertIntoNode(ks, vs, key, value).0;
    assert ks' == InsertAt(ks, i, key);
    assert forall k :: k in ks' ==> k == key || k in ks by {
      forall m | 0 <= m < |ks'| && m != i
        ensures ks'[m] in ks
      {
        if m < i { assert ks'[m] == ks[m]; } else { assert ks'[m] == ks[m - 1]; }
      }
    }
    var r := Insert(order, ks, vs, key, value);
    assert forall k :: k in r.node.keys ==> k in ks';
    assert r.sibling.Some? ==> forall k :: k in r.sibling.value.keys ==> k in ks';
  }

  /** `LeafNode.search`: the value paired with the first equal key. */
  function Search(ks: seq<int>, vs: seq<string>, key: int): (r: Option<string>)
    requires |ks| == |vs|
    ensures r.Some? <==> key in ks
    ensures r.Some? ==> exists i :: 0 <= i < |ks| && ks[i] == key && r.value == vs[i]
                                    && forall j :: 0 <= j < i ==> ks[j] != key
    ensures r == Lookup(Pairs(ks, vs), key)
  {
    var i := FindFirst(ks, key);
    KeysOfPairs(ks, vs);
    if i < |ks| then Some(vs[i]) else None
  }

  /** `LeafNode.update`: overwrite the value of the first equal key; report
      whether there was one. Keys never change. */
  function Update(ks: seq<int>, vs: seq<string>, key: int, value: string): (r: (seq<string>, bool))
    requires |ks| == |vs|
    ensures r.1 <==> key in ks
    ensures |r.0| == |vs|
    ensures r.1 ==> exists i :: 0 <= i < |ks| && ks[i] == key && r.0 == vs[i := value]
                                && forall j :: 0 <= j < i ==> ks[j] != key
    ensures !r.1 ==> r.0 == vs
  {
    var i := FindFirst(ks, key);
    if i < |ks| then (vs[i := value], true) else (vs, false)
  }

  /** Inserting a key that is already in a sorted leaf leaves the oldest
      value in front: a later search still returns the first one inserted. */
  lemma {:induction false} DuplicateKeepsOldest(ks: seq<int>, vs: seq<string>, key: int, value: string)
    requires |ks| == |vs| && Sorted(ks) && key in ks
    ensures var (ks', vs') := InsertIntoNode(ks, vs, key, value);
            Search(ks', vs', key) == Search(ks, vs, key)
  {
    var i := UpperBound(ks, key);
    var f := FindFirst(ks, key);
    var (ks', vs') := InsertIntoNode(ks, vs, key, value);
    assert f < i;
    assert ks' == InsertAt(ks, i, key) && vs' == InsertAt(vs, i, value);
    FindFirstUnique(ks', key, f);
  }
}
