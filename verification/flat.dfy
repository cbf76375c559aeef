/** The flat view of a tree: the sequence of its (key, value) pairs in leaf
    order. It is the reference definition that the node operations are proved
    against: insertion places a pair after every pair with a smaller or equal
    key, and lookup returns the value of the first pair with the key. */
module Flat {
  import opened Wrappers
  import opened SortedSeq

  datatype Entry = Entry(key: int, value: string)

  function KeysOf(es: seq<Entry>): (ks: seq<int>)
    ensures |ks| == |es|
    ensures forall i :: 0 <= i < |es| ==> ks[i] == es[i].key
  {
    seq(|es|, i requires 0 <= i < |es| => es[i].key)
  }

  /** Positional pairing of a leaf's parallel `keys` and `values` lists
      (for a well-formed leaf the two lengths agree). */
  function Pairs(ks: seq<int>, vs: seq<string>): (es: seq<Entry>)
    ensures |es| == if |ks| <= |vs| then |ks| else |vs|
    ensures forall i :: 0 <= i < |es| ==> es[i] == Entry(ks[i], vs[i])
  {
    seq(if |ks| <= |vs| then |ks| else |vs|, i requires 0 <= i < |ks| && i < |vs| => Entry(ks[i], vs[i]))
  }

  predicate DistinctKeys(es: seq<Entry>) {
    forall i, j :: 0 <= i < j < |es| ==> es[i].key != es[j].key
  }

  /** Stable sorted insertion: the new pair goes in at the upper-bound
      position of its key. */
  function InsertSorted(es: seq<Entry>, e: Entry): (r: seq<Entry>)
    ensures |r| == |es| + 1
  {
    InsertAt(es, UpperBound(KeysOf(es), e.key), e)
  }

  /** What sorted insertion does: the new pair goes after every pair whose
      key is at most its own and before the first pair with a greater key,
      and the other pairs keep their order. */
  lemma InsertSortedPlace(es: seq<Entry>, e: Entry)
    ensures exists i :: 0 <= i <= |es| && InsertSorted(es, e) == es[..i] + [e] + es[i..]
                        && (forall j :: 0 <= j < i ==> es[j].key <= e.key)
                        && (i < |es| ==> e.key < es[i].key)
  {
    var i := UpperBound(KeysOf(es), e.key);
    assert InsertSorted(es, e) == es[..i] + [e] + es[i..];
  }

  /** The value of the first pair with key `key`. */
  function Lookup(es: seq<Entry>, key: int): (r: Option<string>)
    ensures r.None? <==> key !in KeysOf(es)
    ensures r.Some? ==> Entry(key, r.value) in es
  {
    var i := FindFirst(KeysOf(es), key);
    if i < |es| then Some(es[i].value) else None
  }

  /** Sorted insertion adds exactly the new key to the stored keys. */
  lemma InsertSortedKeys(es: seq<Entry>, e: Entry)
    ensures forall k :: k in KeysOf(InsertSorted(es, e)) <==> k == e.key || k in KeysOf(es)
  {
    var i := UpperBound(KeysOf(es), e.key);
    KeysOfInsertAt(es, i, e);
    InsertAtMembers(KeysOf(es), i, e.key);
  }

  /** The keys of a list with a pair inserted are its keys with the pair's
      key inserted at the same place. */
  lemma KeysOfInsertAt(es: seq<Entry>, i: nat, e: Entry)
    requires i <= |es|
    ensures KeysOf(InsertAt(es, i, e)) == InsertAt(KeysOf(es), i, e.key)
  {
  }

  /** The keys of a concatenation are the keys of its parts, in order. */
  lemma KeysOfAppend(a: seq<Entry>, b: seq<Entry>)
    ensures KeysOf(a + b) == KeysOf(a) + KeysOf(b)
  {
  }

  /** The two parts of a sequence with distinct keys have distinct keys and
      no key in common. */
  lemma DistinctConcat(a: seq<Entry>, b: seq<Entry>)
    requires DistinctKeys(a + b)
    ensures DistinctKeys(a) && DistinctKeys(b)
    ensures forall k :: k in KeysOf(a) ==> k !in KeysOf(b)
  {
    var ab := a + b;
    assert forall i :: 0 <= i < |a| ==> ab[i] == a[i];
    assert forall i :: 0 <= i < |b| ==> ab[|a| + i] == b[i];
    forall k | k in KeysOf(a) ensures k !in KeysOf(b) {
      var p :| 0 <= p < |a| && KeysOf(a)[p] == k;
    }
  }

  /** Lookup in a sequence of pairs, one pair at a time. */
  lemma LookupCons(es: seq<Entry>, k: int)
    requires |es| > 0
    ensures Lookup(es, k) == if k == es[0].key then Some(es[0].value) else Lookup(es[1..], k)
    ensures k in KeysOf(es) <==> k == es[0].key || k in KeysOf(es[1..])
  {
    KeysOfTail(es);
  }

  lemma KeysOfTail(es: seq<Entry>)
    requires |es| > 0
    ensures KeysOf(es)[1..] == KeysOf(es[1..])
  {
  }

  /** A pair whose key is at least the first key goes behind the first pair. */
  lemma InsertSortedHead(es: seq<Entry>, e: Entry)
    requires |es| > 0 && es[0].key <= e.key
    ensures InsertSorted(es, e)[0] == es[0]
  {
    assert UpperBound(KeysOf(es), e.key) > 0;
  }

  /** With distinct keys a lookup returns the one value stored for the key. */
  lemma LookupDistinct(es: seq<Entry>, e: Entry)
    requires DistinctKeys(es)
    requires e in es
    ensures Lookup(es, e.key) == Some(e.value)
  {
    var p :| 0 <= p < |es| && es[p] == e;
    FindFirstUnique(KeysOf(es), e.key, p);
  }

  /** Inserting a pair whose key is absent keeps the keys distinct. */
  lemma InsertSortedDistinct(es: seq<Entry>, e: Entry)
    requires DistinctKeys(es)
    requires e.key !in KeysOf(es)
    ensures DistinctKeys(InsertSorted(es, e))
  {
    var r := InsertSorted(es, e);
    var i := UpperBound(KeysOf(es), e.key);
    forall a, b | 0 <= a < b < |r| ensures r[a].key != r[b].key {
      if a == i || b == i {
        assert KeysOf(es)[if a == i then b - 1 else a] != e.key;
      }
    }
  }

  /** After inserting a pair with an absent key, a lookup of that key finds
      the new value and every other lookup is unchanged. */
  lemma LookupInsertSorted(es: seq<Entry>, e: Entry, k: int)
    requires e.key !in KeysOf(es)
    ensures Lookup(InsertSorted(es, e), k) == if k == e.key then Some(e.value) else Lookup(es, k)
  {
    var i := UpperBound(KeysOf(es), e.key);
    var r := InsertSorted(es, e);
    var f := FindFirst(KeysOf(es), k);
    KeysOfInsertAt(es, i, e);
    FindFirstInsertAt(KeysOf(es), i, e.key, k);
    if k == e.key {
      assert r[i] == e;
    } else if f < i {
      assert r[f] == es[f];
    } else if f < |es| {
      assert r[f + 1] == es[f];
    }
  }

  /** Insertion into a concatenation whose left part holds only keys at most
      the new key and whose right part only greater keys happens in the middle. */
  lemma InsertSortedSplit(a: seq<Entry>, m: seq<Entry>, b: seq<Entry>, e: Entry)
    requires forall x :: x in a ==> x.key <= e.key
    requires forall x :: x in b ==> e.key < x.key
    ensures InsertSorted(a + m + b, e) == a + InsertSorted(m, e) + b
  {
    var all := a + m + b;
    var i := UpperBound(KeysOf(m), e.key);
    InsertSortedSplitIndex(a, m, b, e);
    InsertAtMiddle(a, m, b, i, e);
  }

  lemma InsertSortedSplitIndex(a: seq<Entry>, m: seq<Entry>, b: seq<Entry>, e: Entry)
    requires forall x :: x in a ==> x.key <= e.key
    requires forall x :: x in b ==> e.key < x.key
    ensures UpperBound(KeysOf(a + m + b), e.key) == |a| + UpperBound(KeysOf(m), e.key)
  {
    var all := a + m + b;
    var i := UpperBound(KeysOf(m), e.key);
    forall j | 0 <= j < |a| + i ensures KeysOf(all)[j] <= e.key {
      if j < |a| {
        assert all[j] == a[j];
        assert a[j] in a;
      } else {
        assert all[j] == m[j - |a|];
      }
    }
    if |a| + i < |all| {
      if i < |m| {
        assert all[|a| + i] == m[i];
      } else {
        assert all[|a| + i] == b[0];
        assert b[0] in b;
      }
    }
    UpperBoundUnique(KeysOf(all), e.key, |a| + i);
  }

  lemma InsertAtMiddle<T>(a: seq<T>, m: seq<T>, b: seq<T>, i: nat, x: T)
    requires i <= |m|
    ensures InsertAt(a + m + b, |a| + i, x) == a + InsertAt(m, i, x) + b
  {
    var all := a + m + b;
    assert all[..|a| + i] == a + m[..i];
    assert all[|a| + i..] == m[i..] + b;
  }
}
