/** Scans over integer key lists shared by leaves and internal nodes. */
module SortedSeq {

  /** Non-decreasing order, duplicates allowed. */
  predicate Sorted(ks: seq<int>) {
    forall i, j :: 0 <= i < j < |ks| ==> ks[i] <= ks[j]
  }

  /** Both halves of a sorted sequence are sorted, and the left half sits
      below the first element of the right half. */
  lemma SortedSplit(ks: seq<int>, mid: nat)
    requires mid < |ks|
    ensures Sorted(ks) ==> Sorted(ks[..mid]) && Sorted(ks[mid..])
    ensures Sorted(ks) ==> forall m :: 0 <= m < mid ==> ks[..mid][m] <= ks[mid..][0]
  {
    assert forall i, j :: 0 <= i < j < |ks[mid..]| ==> ks[mid..][i] == ks[mid + i] && ks[mid..][j] == ks[mid + j];
  }

  /** A sequence is its prefix before `i`, its element at `i` and the rest. */
  lemma SplitAround<T>(s: seq<T>, i: nat)
    requires i < |s|
    ensures s == s[..i] + [s[i]] + s[i + 1..]
  {
  }

  /** Insert `x` at position `i`, shifting the tail right (Java `List.add(i, x)`). */
  function InsertAt<T>(s: seq<T>, i: nat, x: T): (r: seq<T>)
    requires i <= |s|
    ensures |r| == |s| + 1
    ensures r[i] == x
    ensures forall j :: 0 <= j < i ==> r[j] == s[j]
    ensures forall j :: i < j < |r| ==> r[j] == s[j - 1]
  {
    s[..i] + [x] + s[i..]
  }

  /** A sequence is its prefix before `m` followed by the rest. */
  lemma SplitAt<T>(s: seq<T>, m: nat)
    requires m <= |s|
    ensures s == s[..m] + s[m..]
  {
  }

  /** Dropping `m` elements and then one more drops `m + 1`. */
  lemma DropOneMore<T>(s: seq<T>, m: nat)
    requires m < |s|
    ensures s[m..][1..] == s[m + 1..]
  {
  }

  lemma Regroup<T>(a: seq<T>, m: seq<T>, t: seq<T>, b: seq<T>)
    ensures (a + m) + t + b == a + (m + t) + b
  {
  }

  /** Replacing element `i` leaves the elements around it in place. */
  lemma UpdateAround<T>(s: seq<T>, i: nat, x: T)
    requires i < |s|
    ensures s[i := x][..i] == s[..i] && s[i := x][i + 1..] == s[i + 1..]
    ensures s[i := x][..i + 1] == s[..i] + [x]
  {
  }

  /** Replacing element `i` by `x` brings in no member but `x`. */
  lemma UpdateMembers<T>(s: seq<T>, i: nat, x: T)
    requires i < |s|
    ensures forall y :: y in s[i := x] ==> y == x || y in s
  {
    forall y | y in s[i := x] ensures y == x || y in s {
      var j :| 0 <= j < |s| && s[i := x][j] == y;
      if j != i {
        assert s[j] == y;
      }
    }
  }

  /** Inserting adds exactly the new element to the members. */
  lemma InsertAtMembers<T>(s: seq<T>, i: nat, x: T)
    requires i <= |s|
    ensures forall y :: y in InsertAt(s, i, x) <==> y == x || y in s
  {
    assert s == s[..i] + s[i..];
  }

  /** The index where the Java scan `while (i < size && key >= keys[i]) i++`
      stops: the first position whose key is strictly greater than `key`,
      or the length when there is none. */
  function UpperBound(ks: seq<int>, key: int): (i: nat)
    ensures i <= |ks|
    ensures forall j :: 0 <= j < i ==> ks[j] <= key
    ensures i < |ks| ==> key < ks[i]
    decreases |ks|
  {
    if |ks| == 0 || key < ks[0] then 0 else 1 + UpperBound(ks[1..], key)
  }

  /** In a sorted list, every key from the scan's stopping index on is
      greater than the scanned key. */
  lemma AboveUpperBound(ks: seq<int>, key: int, m: nat)
    requires Sorted(ks) && UpperBound(ks, key) <= m < |ks|
    ensures key < ks[m]
  {
    assert ks[UpperBound(ks, key)] <= ks[m];
  }

  /** The stopping index of the scan is determined by its two stopping conditions. */
  lemma UpperBoundUnique(ks: seq<int>, key: int, i: nat)
    requires i <= |ks|
    requires forall j :: 0 <= j < i ==> ks[j] <= key
    requires i < |ks| ==> key < ks[i]
    ensures UpperBound(ks, key) == i
  {
  }

  /** Inserting `key` at its upper-bound position keeps a sorted list
      sorted. */
  lemma InsertAtUpperBoundSorted(ks: seq<int>, key: int)
    ensures Sorted(ks) ==> Sorted(InsertAt(ks, UpperBound(ks, key), key))
  {
  }

  /** Number of entries of `ks` that are at most `key`. */
  function CountAtMost(ks: seq<int>, key: int): nat
    decreases |ks|
  {
    if |ks| == 0 then 0 else (if ks[0] <= key then 1 else 0) + CountAtMost(ks[1..], key)
  }

  /** On a sorted list the scan index counts the keys that are at most `key`:
      a key equal to a separator is routed to the right of it. */
  lemma {:induction false} UpperBoundCountsAtMost(ks: seq<int>, key: int)
    requires Sorted(ks)
    ensures UpperBound(ks, key) == CountAtMost(ks, key)
    decreases |ks|
  {
    if |ks| == 0 {
    } else if key < ks[0] {
      NoneAtMost(ks, key);
    } else {
      assert Sorted(ks[1..]) by {
        forall i, j | 0 <= i < j < |ks[1..]| ensures ks[1..][i] <= ks[1..][j] {
          assert ks[1..][i] == ks[i + 1] && ks[1..][j] == ks[j + 1];
        }
      }
      UpperBoundCountsAtMost(ks[1..], key);
    }
  }

  lemma {:induction false} NoneAtMost(ks: seq<int>, key: int)
    requires forall j :: 0 <= j < |ks| ==> key < ks[j]
    ensures CountAtMost(ks, key) == 0
    decreases |ks|
  {
    if |ks| > 0 {
      NoneAtMost(ks[1..], key);
    }
  }

  /** The index where `for (i = 0; i < size; i++) if (key == keys[i]) ...`
      stops: the first position holding `key`, or the length when absent. */
  function FindFirst(ks: seq<int>, key: int): (i: nat)
    ensures i <= |ks|
    ensures forall j :: 0 <= j < i ==> ks[j] != key
    ensures i < |ks| ==> ks[i] == key
    decreases |ks|
  {
    if |ks| == 0 || ks[0] == key then 0 else 1 + FindFirst(ks[1..], key)
  }

  lemma FindFirstUnique(ks: seq<int>, key: int, i: nat)
    requires i <= |ks|
    requires forall j :: 0 <= j < i ==> ks[j] != key
    requires i < |ks| ==> ks[i] == key
    ensures FindFirst(ks, key) == i
  {
  }

  /** Where the first occurrence of `key` sits after `x` is inserted at
      `i` into a list that does not hold `x`. */
  lemma FindFirstInsertAt(ks: seq<int>, i: nat, x: int, key: int)
    requires i <= |ks| && x !in ks
    ensures FindFirst(InsertAt(ks, i, x), key) ==
              if key == x then i
              else if FindFirst(ks, key) < i then FindFirst(ks, key)
              else FindFirst(ks, key) + 1
  {
    var r := InsertAt(ks, i, x);
    if key == x {
      FindFirstUnique(r, key, i);
    } else {
      var f := FindFirst(ks, key);
      FindFirstUnique(r, key, if f < i then f else f + 1);
    }
  }
}
