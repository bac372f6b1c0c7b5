/** The stable sort by an integer key that `Array.prototype.sort` performs
    with the comparators of src/parser/devicetree.ts (`a.startIndex -
    b.startIndex` and its reverse). */
module Sorting {
  import Utility

  /** Keys never decrease along the sequence. */
  predicate SortedBy<T>(s: seq<T>, key: T -> int)
  {
    forall i, j :: 0 <= i < j < |s| ==> key(s[i]) <= key(s[j])
  }

  /** Inserts `x` after every element whose key is not greater than its own
      (so after equal keys, which keeps the sort stable). */
  function Insert<T>(s: seq<T>, x: T, key: T -> int): (r: seq<T>)
    ensures |r| == |s| + 1
  {
    if |s| == 0 then [x]
    else if key(s[|s| - 1]) > key(x) then Insert(s[..|s| - 1], x, key) + [s[|s| - 1]]
    else s + [x]
  }

  /** A stable sort by `key`: insertion of each element in turn. */
  function SortBy<T>(s: seq<T>, key: T -> int): (r: seq<T>)
    ensures |r| == |s|
  {
    if |s| == 0 then []
    else Insert(SortBy(s[..|s| - 1], key), s[|s| - 1], key)
  }

  lemma {:induction false} InsertPermutes<T>(s: seq<T>, x: T, key: T -> int)
    ensures multiset(Insert(s, x, key)) == multiset(s) + multiset{x}
    decreases |s|
  {
    if |s| > 0 && key(s[|s| - 1]) > key(x) {
      InsertPermutes(s[..|s| - 1], x, key);
      assert s == s[..|s| - 1] + [s[|s| - 1]];
    }
  }

  lemma {:induction false} InsertSorted<T>(s: seq<T>, x: T, key: T -> int)
    requires SortedBy(s, key)
    ensures SortedBy(Insert(s, x, key), key)
    ensures forall i :: 0 <= i < |Insert(s, x, key)| ==>
      key(Insert(s, x, key)[i]) == key(x) || exists j :: 0 <= j < |s| && key(Insert(s, x, key)[i]) == key(s[j])
    decreases |s|
  {
    if |s| > 0 && key(s[|s| - 1]) > key(x) {
      var init := s[..|s| - 1];
      InsertSorted(init, x, key);
      var r := Insert(init, x, key);
      forall i | 0 <= i < |r|
        ensures key(r[i]) <= key(s[|s| - 1])
      {
        if key(r[i]) != key(x) {
          var j :| 0 <= j < |init| && key(r[i]) == key(init[j]);
        }
      }
    }
  }

  /** The result of `SortBy` is sorted and a permutation of the input. */
  lemma {:induction false} SortBySorted<T>(s: seq<T>, key: T -> int)
    ensures SortedBy(SortBy(s, key), key)
    ensures multiset(SortBy(s, key)) == multiset(s)
    decreases |s|
  {
    if |s| > 0 {
      var init, last := s[..|s| - 1], s[|s| - 1];
      var sorted := SortBy(init, key);
      SortBySorted(init, key);
      assert SortBy(s, key) == Insert(sorted, last, key);
      InsertSorted(sorted, last, key);
      InsertPermutes(sorted, last, key);
      assert multiset(s) == multiset(init) + multiset{last} by {
        assert s == init + [last];
      }
    }
  }

  /** The first element with the least key, and how many come before it. */
  predicate IsFirstLeast<T>(s: seq<T>, key: T -> int, k: nat)
  {
    && k < |s|
    && (forall i :: 0 <= i < |s| ==> key(s[k]) <= key(s[i]))
    && (forall i :: 0 <= i < k ==> key(s[k]) < key(s[i]))
  }

  /** The index of the first element with the least key. */
  function FirstLeast<T>(s: seq<T>, key: T -> int): (k: nat)
    requires |s| > 0
    ensures IsFirstLeast(s, key, k)
  {
    if |s| == 1 then 0
    else
      var k := FirstLeast(s[..|s| - 1], key);
      if key(s[|s| - 1]) < key(s[k]) then (FirstLeastLast(s, key, k); |s| - 1)
      else (FirstLeastKept(s, key, k); k)
  }

  /** Stability at the front: the sorted sequence starts with the first
      element of the input among those with the least key. */
  lemma {:induction false} SortByHead<T>(s: seq<T>, key: T -> int)
    requires |s| > 0
    ensures SortBy(s, key)[0] == s[FirstLeast(s, key)]
    decreases |s|
  {
    var n := |s| - 1;
    if n > 0 {
      var init := s[..n];
      SortByHead(init, key);
      SortBySorted(init, key);
      InsertHead(SortBy(init, key), s[n], key);
    }
  }

  lemma FirstLeastLast<T>(s: seq<T>, key: T -> int, k: nat)
    requires |s| > 1 && IsFirstLeast(s[..|s| - 1], key, k) && key(s[|s| - 1]) < key(s[k])
    ensures IsFirstLeast(s, key, |s| - 1)
  {
    var init := s[..|s| - 1];
    assert forall i :: 0 <= i < |init| ==> s[i] == init[i];
  }

  lemma FirstLeastKept<T>(s: seq<T>, key: T -> int, k: nat)
    requires |s| > 1 && IsFirstLeast(s[..|s| - 1], key, k) && key(s[|s| - 1]) >= key(s[k])
    ensures IsFirstLeast(s, key, k)
  {
    var init := s[..|s| - 1];
    assert forall i :: 0 <= i < |init| ==> s[i] == init[i];
  }

  lemma {:induction false} InsertHead<T>(m: seq<T>, x: T, key: T -> int)
    requires |m| > 0 && SortedBy(m, key)
    ensures Insert(m, x, key)[0] == if key(x) < key(m[0]) then x else m[0]
    decreases |m|
  {
    if key(m[|m| - 1]) > key(x) && |m| > 1 {
      InsertHead(m[..|m| - 1], x, key);
    }
  }

  /** In-place insertion sort: each element is shifted left past the larger
      keys before it. */
  method InsertionSort<T>(a: array<T>, key: T -> int)
    modifies a
    ensures a[..] == SortBy(old(a[..]), key)
  {
    ghost var input := a[..];
    var i := 0;
    while i < a.Length
      invariant 0 <= i <= a.Length
      invariant a[..i] == SortBy(input[..i], key)
      invariant a[i..] == input[i..]
    {
      assert input[..i + 1] == input[..i] + [input[i]];
      assert SortBy(input[..i + 1], key) == Insert(SortBy(input[..i], key), input[i], key);
      InsertAt(a, i, key);
      assert a[i + 1..] == input[i + 1..];
      i := i + 1;
    }
    assert input[..a.Length] == input;
  }

  /** One pass of the outer loop: element `i` moves into place within the
      first `i + 1` elements; the rest of the array stays. */
  method InsertAt<T>(a: array<T>, i: nat, key: T -> int)
    requires i < a.Length
    modifies a
    ensures a[..i + 1] == Insert(old(a[..i]), old(a[i]), key)
    ensures a[i + 1..] == old(a[i + 1..])
  {
    var x := a[i];
    ghost var sorted := a[..i];
    ghost var rest := a[i + 1..];
    var j := i;
    assert sorted[..j] == sorted && sorted[j..] == [];
    while j > 0 && key(a[j - 1]) > key(x)
      invariant 0 <= j <= i
      invariant a[..j] == sorted[..j]
      invariant a[j + 1..i + 1] == sorted[j..]
      invariant a[i + 1..] == rest
      invariant Insert(sorted, x, key) == Insert(sorted[..j], x, key) + sorted[j..]
    {
      ghost var before := a[..];
      a[j] := a[j - 1];
      ShiftSlices(before, a[..], sorted, i, j);
      ShiftStep(sorted, x, key, j);
      j := j - 1;
    }
    ghost var before := a[..];
    a[j] := x;
    PlaceSlices(before, a[..], sorted, x, i, j);
    InsertDone(sorted, x, key, j);
  }

  /** The slices of the array after `a[j] := a[j - 1]`. */
  lemma ShiftSlices<T>(before: seq<T>, after: seq<T>, sorted: seq<T>, i: nat, j: nat)
    requires 0 < j <= i < |before| && |sorted| == i
    requires after == before[j := before[j - 1]]
    requires before[..j] == sorted[..j] && before[j + 1..i + 1] == sorted[j..]
    ensures after[..j - 1] == sorted[..j - 1]
    ensures after[j..i + 1] == sorted[j - 1..]
    ensures after[i + 1..] == before[i + 1..]
  {
    assert after[..j - 1] == before[..j][..j - 1];
    assert sorted[..j - 1] == sorted[..j][..j - 1];
    assert after[j..i + 1] == [after[j]] + after[j + 1..i + 1];
    assert sorted[j - 1..] == [sorted[j - 1]] + sorted[j..];
    assert before[j - 1] == before[..j][j - 1];
  }

  /** The slices of the array after `a[j] := x`. */
  lemma PlaceSlices<T>(before: seq<T>, after: seq<T>, sorted: seq<T>, x: T, i: nat, j: nat)
    requires j <= i < |before| && |sorted| == i
    requires after == before[j := x]
    requires before[..j] == sorted[..j] && before[j + 1..i + 1] == sorted[j..]
    ensures after[..i + 1] == sorted[..j] + [x] + sorted[j..]
    ensures after[i + 1..] == before[i + 1..]
  {
    assert after[..i + 1] == after[..j] + [after[j]] + after[j + 1..i + 1];
  }

  lemma ShiftStep<T>(sorted: seq<T>, x: T, key: T -> int, j: nat)
    requires 0 < j <= |sorted|
    requires key(sorted[j - 1]) > key(x)
    ensures Insert(sorted[..j], x, key) + sorted[j..] == Insert(sorted[..j - 1], x, key) + sorted[j - 1..]
  {
    assert sorted[..j][..j - 1] == sorted[..j - 1];
    assert Insert(sorted[..j], x, key) == Insert(sorted[..j - 1], x, key) + [sorted[j - 1]];
    Utility.AppendAssoc(Insert(sorted[..j - 1], x, key), [sorted[j - 1]], sorted[j..]);
    assert [sorted[j - 1]] + sorted[j..] == sorted[j - 1..];
  }

  lemma InsertDone<T>(sorted: seq<T>, x: T, key: T -> int, j: nat)
    requires j <= |sorted|
    requires j == 0 || key(sorted[j - 1]) <= key(x)
    ensures Insert(sorted[..j], x, key) == sorted[..j] + [x]
  {
  }
}
