/** BPlusTreeMemory.java: the tree object. It owns the root and the order,
    grows by one level when the root splits, and forwards `search` and
    `update` to the root. */
module BPlusTreeMemory {
  import opened Wrappers
  import opened SortedSeq
  import opened Flat
  import opened Nodes
  import NodeOps
  import EntriesProofs
  import OrderProofs
  import AnchorProofs
  import ShapeProofs
  import SearchProofs
  import UpdateProofs
  import AsWrittenProofs

  datatype Tree = Tree(order: int, root: Node)

  /** The invariants every tree built by this class satisfies: the order is
      legal, the root is well formed, ordered and anchored, no node is over
      capacity and all leaves are at the same depth. */
  predicate Valid(t: Tree) {
    && 3 <= t.order
    && WellFormed(t.root) && Ordered(t.root) && Anchored(t.root)
    && WithinCapacity(t.order, t.root)
    && Balanced(t.root, Height(t.root))
  }

  /** The constructor: an order below 3 is rejected with the source's
      message; otherwise the tree is a single empty leaf. */
  function New(order: int): (r: Result<Tree, string>)
    ensures r.Failure? <==> order < 3
    ensures r.Failure? ==> r.error == "Order must be at least 3"
    ensures r.Success? ==> r.value.order == order && Valid(r.value) && Entries(r.value.root) == []
  {
    if order < 3 then Failure("Order must be at least 3") else Success(Tree(order, Leaf([], [])))
  }

  /** The new root made when the old root splits: the promoted key over the
      old root and the promoted sibling. */
  function Grow(res: Inserted): (r: Node)
    requires WellFormed(res.node) && res.sibling.Some? && SiblingShape(res.sibling.value)
    ensures WellFormed(r) && r.Internal? && |r.keys| == 1
    ensures Entries(r) == Output(res)
  {
    var (sep, right) := Promote(res.sibling.value);
    assert [res.node, right][1..] == [right];
    EntriesOfChildrenSingle(right);
    Internal([sep], [res.node, right])
  }

  /** `BPlusTreeMemory.insert`: insert at the root, and when the root splits
      put a new root with one key above the two halves. */
  function Insert(t: Tree, key: int, value: string): (r: Tree)
    requires WellFormed(t.root)
    ensures r.order == t.order && WellFormed(r.root)
  {
    var res := NodeOps.Insert(t.order, t.root, key, value);
    if res.sibling.None? then Tree(t.order, res.node) else Tree(t.order, Grow(res))
  }

  /** `BPlusTreeMemory.insert` with the routing of the promoted key exactly
      as InternalNode.java writes it. */
  function InsertAsWritten(t: Tree, key: int, value: string): (r: Tree)
    requires WellFormed(t.root)
    ensures r.order == t.order && WellFormed(r.root)
  {
    var res := NodeOps.InsertAsWritten(t.order, t.root, key, value);
    if res.sibling.None? then Tree(t.order, res.node) else Tree(t.order, Grow(res))
  }

  /** `BPlusTreeMemory.search`. */
  function Search(t: Tree, key: int): (r: Option<string>)
    requires WellFormed(t.root)
    ensures r.Some? ==> Entry(key, r.value) in Entries(t.root)
  {
    NodeOps.Search(t.root, key)
  }

  /** `BPlusTreeMemory.update`: overwrite the value `search` would return,
      leaving the tree as it was on a miss. */
  function Update(t: Tree, key: int, value: string): (r: (Tree, bool))
    requires WellFormed(t.root)
    ensures r.0.order == t.order && WellFormed(r.0.root) && SameKeys(t.root, r.0.root)
    ensures r.1 <==> Search(t, key).Some?
    ensures !r.1 ==> r.0 == t
    ensures forall k :: Search(r.0, k) == if k == key && r.1 then Some(value) else Search(t, k)
  {
    var (root, found) := NodeOps.Update(t.root, key, value);
    (Tree(t.order, root), found)
  }

  // ---- insertion ----

  /** Insertion is a stable sorted insertion into the tree's pairs in leaf
      order, with or without a root split. */
  lemma InsertEntries(t: Tree, key: int, value: string)
    requires Valid(t)
    ensures Entries(Insert(t, key, value).root) == InsertSorted(Entries(t.root), Entry(key, value))
  {
    EntriesProofs.InsertEntries(t.order, t.root, key, value);
  }

  /** Insertion keeps every invariant of the tree. */
  lemma InsertValid(t: Tree, key: int, value: string)
    requires Valid(t)
    ensures Valid(Insert(t, key, value))
  {
    var h := Height(t.root);
    var res := NodeOps.Insert(t.order, t.root, key, value);
    OrderProofs.InsertOrdered(t.order, t.root, key, value);
    AnchorProofs.InsertAnchored(t.order, t.root, key, value);
    ShapeProofs.InsertCapacity(t.order, t.root, key, value);
    ShapeProofs.InsertBalanced(t.order, t.root, key, value, h);
    BalancedHeight(res.node, h);
    if res.sibling.Some? {
      GrowValid(t.order, res, h);
    }
  }

  /** A new root over a split keeps every invariant, one level higher. */
  lemma GrowValid(order: int, res: Inserted, h: nat)
    requires 3 <= order && WellFormed(res.node) && res.sibling.Some? && SiblingShape(res.sibling.value)
    requires OrderProofs.OrderedResult(res) && AnchorProofs.AnchoredResult(res)
    requires ShapeProofs.CapacityResult(order, res) && ShapeProofs.BalancedResult(res, h)
    requires Height(res.node) == h
    ensures Valid(Tree(order, Grow(res)))
  {
    var root := Grow(res);
    var (sep, right) := Promote(res.sibling.value);
    assert root.children == [res.node, right];
    assert Height(root) == h + 1;
    assert Ordered(root);
    assert Anchored(root);
  }

  /** The tree grows only at the root: an insertion adds one level exactly
      when the old root splits, and the new root then holds a single key. */
  lemma InsertHeight(t: Tree, key: int, value: string)
    requires Valid(t)
    ensures var res := NodeOps.Insert(t.order, t.root, key, value);
            var r := Insert(t, key, value);
            && Height(r.root) == Height(t.root) + (if res.sibling.Some? then 1 else 0)
            && (res.sibling.Some? ==> r.root.Internal? && |r.root.keys| == 1)
  {
    var h := Height(t.root);
    var res := NodeOps.Insert(t.order, t.root, key, value);
    ShapeProofs.InsertBalanced(t.order, t.root, key, value, h);
    BalancedHeight(res.node, h);
  }

  /** The part of `Valid` that does not depend on the order of the keys. */
  predicate Shaped(t: Tree) {
    && 3 <= t.order
    && WellFormed(t.root)
    && WithinCapacity(t.order, t.root)
    && Balanced(t.root, Height(t.root))
  }

  /** A new root over a split keeps the shape, one level higher. */
  lemma GrowShape(order: int, res: Inserted, h: nat)
    requires 3 <= order && WellFormed(res.node) && res.sibling.Some? && SiblingShape(res.sibling.value)
    requires ShapeProofs.CapacityResult(order, res) && ShapeProofs.BalancedResult(res, h)
    requires Height(res.node) == h
    ensures Shaped(Tree(order, Grow(res))) && Height(Grow(res)) == h + 1
  {
    var root := Grow(res);
    var (sep, right) := Promote(res.sibling.value);
    assert root.children == [res.node, right];
  }

  /** The code as written misfiles keys but keeps the tree's shape: no node
      over capacity, every leaf at the same depth, and one more level exactly
      when the root splits. */
  lemma InsertAsWrittenShape(t: Tree, key: int, value: string)
    requires Shaped(t)
    ensures var res := NodeOps.InsertAsWritten(t.order, t.root, key, value);
            var r := InsertAsWritten(t, key, value);
            && Shaped(r)
            && Height(r.root) == Height(t.root) + (if res.sibling.Some? then 1 else 0)
  {
    var h := Height(t.root);
    var res := NodeOps.InsertAsWritten(t.order, t.root, key, value);
    ShapeProofs.InsertAsWrittenCapacity(t.order, t.root, key, value);
    ShapeProofs.InsertAsWrittenBalanced(t.order, t.root, key, value, h);
    BalancedHeight(res.node, h);
    if res.sibling.Some? {
      GrowShape(t.order, res, h);
    }
  }

  // ---- search ----

  /** In a valid tree `search` finds every stored key. */
  lemma SearchFindsStored(t: Tree, key: int)
    requires Valid(t)
    ensures Search(t, key).Some? <==> key in KeysOf(Entries(t.root))
  {
    if key in KeysOf(Entries(t.root)) {
      SearchProofs.SearchComplete(t.root, key);
    }
  }

  /** When every stored pair with key `key` carries the same value (as when
      a key is inserted again with the same value), `search` returns it. */
  lemma SearchConsistent(t: Tree, key: int, value: string)
    requires Valid(t)
    requires key in KeysOf(Entries(t.root))
    requires forall x :: x in Entries(t.root) && x.key == key ==> x.value == value
    ensures Search(t, key) == Some(value)
  {
    SearchFindsStored(t, key);
  }

  /** With distinct keys `search` is the lookup in the tree's pairs. */
  lemma SearchIsLookup(t: Tree, key: int)
    requires Valid(t) && DistinctKeys(Entries(t.root))
    ensures Search(t, key) == Lookup(Entries(t.root), key)
  {
    SearchProofs.SearchIsLookup(t.root, key);
  }

  /** Inserting a new key makes it findable with its value and changes no
      other search. */
  lemma InsertThenSearch(t: Tree, key: int, value: string, k: int)
    requires Valid(t) && DistinctKeys(Entries(t.root))
    requires key !in KeysOf(Entries(t.root))
    ensures Search(Insert(t, key, value), k) == if k == key then Some(value) else Search(t, k)
  {
    var e := Entry(key, value);
    InsertEntries(t, key, value);
    InsertValid(t, key, value);
    InsertSortedDistinct(Entries(t.root), e);
    SearchIsLookup(t, k);
    SearchIsLookup(Insert(t, key, value), k);
    LookupInsertSorted(Entries(t.root), e, k);
  }

  /** Every key inserted into a valid tree, duplicates included, is found
      afterwards. */
  lemma InsertThenFound(t: Tree, key: int, value: string, k: int)
    requires Valid(t)
    requires k == key || k in KeysOf(Entries(t.root))
    ensures Search(Insert(t, key, value), k).Some?
  {
    InsertEntries(t, key, value);
    InsertValid(t, key, value);
    InsertSortedKeys(Entries(t.root), Entry(key, value));
    SearchFindsStored(Insert(t, key, value), k);
  }

  // ---- update ----

  /** Updating keeps every invariant of the tree and the stored keys. */
  lemma UpdateValid(t: Tree, key: int, value: string)
    requires Valid(t)
    ensures Valid(Update(t, key, value).0)
    ensures KeysOf(Entries(Update(t, key, value).0.root)) == KeysOf(Entries(t.root))
  {
    var r := Update(t, key, value).0;
    UpdateProofs.SameKeysOrdered(t.root, r.root);
    UpdateProofs.SameKeysAnchored(t.root, r.root);
    UpdateProofs.SameKeysCapacity(t.root, r.root, t.order);
    UpdateProofs.SameKeysBalanced(t.root, r.root, Height(t.root));
    BalancedHeight(r.root, Height(t.root));
    UpdateProofs.SameKeysEntries(t.root, r.root);
  }

  /** `update` reports success exactly for stored keys. */
  lemma UpdateFindsStored(t: Tree, key: int, value: string)
    requires Valid(t)
    ensures Update(t, key, value).1 <==> key in KeysOf(Entries(t.root))
  {
    SearchFindsStored(t, key);
  }

  // ---- building a tree by repeated insertion ----

  /** Insert the pairs one after another, left to right. */
  function InsertAll(t: Tree, es: seq<Entry>): (r: Tree)
    requires WellFormed(t.root)
    ensures r.order == t.order && WellFormed(r.root)
    decreases |es|
  {
    if |es| == 0 then t else InsertAll(Insert(t, es[0].key, es[0].value), es[1..])
  }

  /** `InsertAll` with the insertion exactly as InternalNode.java writes it. */
  function InsertAllAsWritten(t: Tree, es: seq<Entry>): (r: Tree)
    requires WellFormed(t.root)
    ensures r.order == t.order && WellFormed(r.root)
    decreases |es|
  {
    if |es| == 0 then t else InsertAllAsWritten(InsertAsWritten(t, es[0].key, es[0].value), es[1..])
  }

  /** Any run of insertions as written keeps the tree's shape, whatever the
      keys. */
  lemma {:induction false} InsertAllAsWrittenShape(t: Tree, es: seq<Entry>)
    requires Shaped(t)
    ensures Shaped(InsertAllAsWritten(t, es))
    decreases |es|
  {
    if |es| > 0 {
      InsertAsWrittenShape(t, es[0].key, es[0].value);
      InsertAllAsWrittenShape(InsertAsWritten(t, es[0].key, es[0].value), es[1..]);
    }
  }

  /** Inserting pairs with new, distinct keys one by one: the tree stays
      valid, and a lookup finds each inserted pair's value and every old
      value. */
  lemma {:induction false} InsertAllLookup(t: Tree, es: seq<Entry>)
    requires Valid(t) && DistinctKeys(Entries(t.root) + es)
    ensures Valid(InsertAll(t, es)) && DistinctKeys(Entries(InsertAll(t, es).root))
    ensures forall k :: Lookup(Entries(InsertAll(t, es).root), k) ==
                        if k in KeysOf(es) then Lookup(es, k) else Lookup(Entries(t.root), k)
    decreases |es|
  {
    if |es| == 0 {
      assert Entries(t.root) + es == Entries(t.root);
    } else {
      var e := es[0];
      var t' := Insert(t, e.key, e.value);
      InsertFirst(t, es);
      InsertAllLookup(t', es[1..]);
      assert InsertAll(t, es) == InsertAll(t', es[1..]);
      forall k ensures Lookup(Entries(InsertAll(t, es).root), k) ==
                       if k in KeysOf(es) then Lookup(es, k) else Lookup(Entries(t.root), k) {
        LookupAfterMove(Entries(t.root), es, Entries(InsertAll(t, es).root), k);
      }
    }
  }

  lemma LookupAfterMove(old_es: seq<Entry>, es: seq<Entry>, final: seq<Entry>, k: int)
    requires |es| > 0 && es[0].key !in KeysOf(old_es) && es[0].key !in KeysOf(es[1..])
    requires Lookup(final, k) ==
             if k in KeysOf(es[1..]) then Lookup(es[1..], k) else Lookup(InsertSorted(old_es, es[0]), k)
    ensures Lookup(final, k) == if k in KeysOf(es) then Lookup(es, k) else Lookup(old_es, k)
  {
    LookupInsertSorted(old_es, es[0], k);
    LookupCons(es, k);
  }

  /** The first step of `InsertAll`: the first pending pair moves into the
      tree, which stays valid and keeps all keys distinct. */
  lemma InsertFirst(t: Tree, es: seq<Entry>)
    requires Valid(t) && DistinctKeys(Entries(t.root) + es) && |es| > 0
    ensures var t' := Insert(t, es[0].key, es[0].value);
            && Valid(t') && DistinctKeys(Entries(t'.root) + es[1..])
            && es[0].key !in KeysOf(Entries(t.root))
            && es[0].key !in KeysOf(es[1..])
            && Entries(t'.root) == InsertSorted(Entries(t.root), es[0])
  {
    var old_es := Entries(t.root);
    var e := es[0];
    DistinctConcat(old_es, es);
    assert es == [e] + es[1..];
    DistinctConcat([e], es[1..]);
    assert e.key in KeysOf([e]);
    InsertValid(t, e.key, e.value);
    InsertEntries(t, e.key, e.value);
    DistinctAfterMove(old_es, es, InsertSorted(old_es, e));
  }

  /** Moving the first pending pair into the stored pairs keeps all keys
      distinct. */
  lemma DistinctAfterMove(old_es: seq<Entry>, es: seq<Entry>, new_es: seq<Entry>)
    requires |es| > 0 && DistinctKeys(old_es + es)
    requires exists i :: 0 <= i <= |old_es| && new_es == old_es[..i] + [es[0]] + old_es[i..]
    ensures DistinctKeys(new_es + es[1..])
  {
    var i :| 0 <= i <= |old_es| && new_es == old_es[..i] + [es[0]] + old_es[i..];
    var all, moved := old_es + es, new_es + es[1..];
    // position of each pair of `moved` in `all`
    var f := (j: int) requires 0 <= j < |moved| =>
      if j < i then j else if j == i then |old_es| else if j <= |old_es| then j - 1 else j;
    forall a, b | 0 <= a < b < |moved| ensures moved[a].key != moved[b].key {
      assert moved[a] == all[f(a)] && moved[b] == all[f(b)];
      assert f(a) != f(b) && all[f(a)].key != all[f(b)].key;
    }
  }

  /** Building a tree of any legal order from pairs with distinct keys and
      searching it returns exactly the inserted value of each key and nothing
      for any other key. */
  lemma BuildThenSearch(order: int, es: seq<Entry>, k: int)
    requires 3 <= order && DistinctKeys(es)
    ensures var t := InsertAll(New(order).value, es);
            Valid(t) && Search(t, k) == Lookup(es, k)
  {
    var t0 := New(order).value;
    assert Entries(t0.root) + es == es;
    InsertAllLookup(t0, es);
    var t := InsertAll(t0, es);
    SearchIsLookup(t, k);
  }

  // ---- the code as written, on distinct keys ----

  /** On a valid tree with distinct keys, insertion exactly as
      InternalNode.java writes it builds the same tree as the corrected
      insertion, whatever key is inserted. */
  lemma InsertAsWrittenAgrees(t: Tree, key: int, value: string)
    requires Valid(t) && DistinctKeys(Entries(t.root))
    ensures InsertAsWritten(t, key, value) == Insert(t, key, value)
  {
    AsWrittenProofs.InsertAgrees(t.order, t.root, key, value);
  }

  /** Inserting pairs with new, distinct keys one by one, the code as
      written and the corrected insertion build the same tree. */
  lemma {:induction false} InsertAllAsWrittenAgrees(t: Tree, es: seq<Entry>)
    requires Valid(t) && DistinctKeys(Entries(t.root) + es)
    ensures InsertAllAsWritten(t, es) == InsertAll(t, es)
    decreases |es|
  {
    if |es| > 0 {
      DistinctConcat(Entries(t.root), es);
      InsertAsWrittenAgrees(t, es[0].key, es[0].value);
      InsertFirst(t, es);
      InsertAllAsWrittenAgrees(Insert(t, es[0].key, es[0].value), es[1..]);
    }
  }

  /** The round trip of the code as written: for any legal order and
      distinct keys, the tree built by insertion is valid and `search`
      returns exactly the inserted value of each key and nothing for any
      other key. */
  lemma BuildAsWrittenThenSearch(order: int, es: seq<Entry>, k: int)
    requires 3 <= order && DistinctKeys(es)
    ensures var t := InsertAllAsWritten(New(order).value, es);
            Valid(t) && Search(t, k) == Lookup(es, k)
  {
    var t0 := New(order).value;
    assert Entries(t0.root) + es == es;
    InsertAllAsWrittenAgrees(t0, es);
    BuildThenSearch(order, es, k);
  }
}
