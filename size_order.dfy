/**
  * `sorted(files, key=size, reverse=True)`: a stable sort, largest first.
  * Python's sort keeps elements with equal keys in their input order even
  * when `reverse=True`; the insertion sort below is that order, and the
  * lemmas state it as a permutation, sorted largest first, with ties kept.
  */
module SizeOrder {

  /** No element is larger than the one before it. */
  predicate NonIncreasing<T>(xs: seq<T>, key: T -> nat) {
    forall j, k :: 0 <= j < k < |xs| ==> key(xs[j]) >= key(xs[k])
  }

  /** The elements whose key is k, in their order in xs. */
  function WithKey<T>(xs: seq<T>, key: T -> nat, k: nat): (ties: seq<T>)
    ensures |ties| <= |xs|
    ensures forall x :: x in ties ==> x in xs && key(x) == k
  {
    if |xs| == 0 then []
    else (if key(xs[0]) == k then [xs[0]] else []) + WithKey(xs[1..], key, k)
  }

  /** Inserts x in front of the first element whose key is not larger than its own. */
  function Insert<T>(x: T, ys: seq<T>, key: T -> nat): (inserted: seq<T>)
    ensures |inserted| == |ys| + 1
  {
    if |ys| == 0 || key(ys[0]) <= key(x) then [x] + ys
    else [ys[0]] + Insert(x, ys[1..], key)
  }

  /** The order `sorted(xs, key=key, reverse=True)` returns. */
  function SortDescending<T>(xs: seq<T>, key: T -> nat): (sorted: seq<T>)
    ensures |sorted| == |xs|
  {
    if |xs| == 0 then [] else Insert(xs[0], SortDescending(xs[1..], key), key)
  }

  lemma {:induction false} InsertPermutes<T>(x: T, ys: seq<T>, key: T -> nat)
    ensures multiset(Insert(x, ys, key)) == multiset(ys) + multiset{x}
  {
    if |ys| > 0 && key(ys[0]) > key(x) {
      InsertPermutes(x, ys[1..], key);
      assert ys == [ys[0]] + ys[1..];
    }
  }

  /** The sort only reorders: same elements, same multiplicities. */
  lemma {:induction false} SortIsPermutation<T>(xs: seq<T>, key: T -> nat)
    ensures multiset(SortDescending(xs, key)) == multiset(xs)
  {
    if |xs| > 0 {
      SortIsPermutation(xs[1..], key);
      InsertPermutes(xs[0], SortDescending(xs[1..], key), key);
      assert xs == [xs[0]] + xs[1..];
    }
  }

  lemma {:induction false} InsertKeepsOrder<T>(x: T, ys: seq<T>, key: T -> nat)
    requires NonIncreasing(ys, key)
    ensures NonIncreasing(Insert(x, ys, key), key)
  {
    if |ys| > 0 && key(ys[0]) > key(x) {
      var rest := Insert(x, ys[1..], key);
      InsertKeepsOrder(x, ys[1..], key);
      InsertPermutes(x, ys[1..], key);
      forall k | 0 <= k < |rest|
        ensures key(ys[0]) >= key(rest[k])
      {
        assert rest[k] in multiset(rest);
        if rest[k] != x {
          assert rest[k] in multiset(ys[1..]);
          assert rest[k] in ys[1..];
        }
      }
    }
  }

  /** The sort puts larger keys first. */
  lemma {:induction false} SortIsNonIncreasing<T>(xs: seq<T>, key: T -> nat)
    ensures NonIncreasing(SortDescending(xs, key), key)
  {
    if |xs| > 0 {
      SortIsNonIncreasing(xs[1..], key);
      InsertKeepsOrder(xs[0], SortDescending(xs[1..], key), key);
    }
  }

  lemma {:induction false} InsertKeepsTies<T>(x: T, ys: seq<T>, key: T -> nat, k: nat)
    ensures WithKey(Insert(x, ys, key), key, k) == (if key(x) == k then [x] else []) + WithKey(ys, key, k)
  {
    if |ys| > 0 && key(ys[0]) > key(x) {
      InsertKeepsTies(x, ys[1..], key, k);
      assert ([ys[0]] + Insert(x, ys[1..], key))[1..] == Insert(x, ys[1..], key);
    } else {
      assert ([x] + ys)[1..] == ys;
    }
  }

  /** Stability: the elements of any one key come out in their input order. */
  lemma {:induction false} SortIsStable<T>(xs: seq<T>, key: T -> nat, k: nat)
    ensures WithKey(SortDescending(xs, key), key, k) == WithKey(xs, key, k)
  {
    if |xs| > 0 {
      SortIsStable(xs[1..], key, k);
      InsertKeepsTies(xs[0], SortDescending(xs[1..], key), key, k);
    }
  }

  /** The first element of the sorted order has the largest key of all. */
  lemma SortFirstIsLargest<T>(xs: seq<T>, key: T -> nat)
    requires |xs| > 0
    ensures |SortDescending(xs, key)| == |xs|
    ensures forall x :: x in xs ==> key(x) <= key(SortDescending(xs, key)[0])
  {
    var sorted := SortDescending(xs, key);
    SortIsPermutation(xs, key);
    SortIsNonIncreasing(xs, key);
    assert |sorted| == |multiset(sorted)| == |multiset(xs)| == |xs|;
    forall x | x in xs
      ensures key(x) <= key(sorted[0])
    {
      assert x in multiset(xs);
      assert x in sorted;
    }
  }

  /** xs[j], if it occurs nowhere before j, comes out first exactly when its key is the largest and every earlier key is smaller. */
  lemma SortFirstIsEarliestLargest<T>(xs: seq<T>, key: T -> nat, j: nat)
    requires j < |xs| && xs[j] !in xs[..j]
    ensures |SortDescending(xs, key)| == |xs|
    ensures SortDescending(xs, key)[0] == xs[j] <==>
      && (forall x :: x in xs ==> key(x) <= key(xs[j]))
      && (forall i :: 0 <= i < j ==> key(xs[i]) < key(xs[j]))
  {
    var sorted := SortDescending(xs, key);
    SortFirstIsLargest(xs, key);
    SortIsPermutation(xs, key);
    assert sorted[0] in multiset(xs);
    var top := key(sorted[0]);
    SortIsStable(xs, key, top);
    WithKeyHead(sorted, key);
    if (forall x :: x in xs ==> key(x) <= key(xs[j])) && (forall i :: 0 <= i < j ==> key(xs[i]) < key(xs[j])) {
      assert key(xs[j]) == top;
      WithKeyFirst(xs, key, top, j);
    }
    if sorted[0] == xs[j] {
      forall i | 0 <= i < j
        ensures key(xs[i]) < key(xs[j])
      {
        if key(xs[i]) >= key(xs[j]) {
          WithKeyHeadIsEarly(xs, key, top, i);
          assert false;
        }
      }
    }
  }

  /** The first element of key k occurs no later than any element of key k. */
  lemma {:induction false} WithKeyHeadIsEarly<T>(xs: seq<T>, key: T -> nat, k: nat, i: nat)
    requires i < |xs| && key(xs[i]) == k
    ensures |WithKey(xs, key, k)| > 0 && WithKey(xs, key, k)[0] in xs[..i + 1]
  {
    if key(xs[0]) != k {
      WithKeyHeadIsEarly(xs[1..], key, k, i - 1);
      assert xs[1..][..i] == xs[1..i + 1];
    }
  }

  /** If xs[j] is the first element whose key is k, it heads the elements of key k. */
  lemma {:induction false} WithKeyFirst<T>(xs: seq<T>, key: T -> nat, k: nat, j: nat)
    requires j < |xs| && key(xs[j]) == k
    requires forall i :: 0 <= i < j ==> key(xs[i]) < k
    ensures |WithKey(xs, key, k)| > 0 && WithKey(xs, key, k)[0] == xs[j]
  {
    if j > 0 {
      WithKeyFirst(xs[1..], key, k, j - 1);
    }
  }

  /** The head of a non-empty sequence heads the elements that share its key. */
  lemma WithKeyHead<T>(xs: seq<T>, key: T -> nat)
    requires |xs| > 0
    ensures |WithKey(xs, key, key(xs[0]))| > 0 && WithKey(xs, key, key(xs[0]))[0] == xs[0]
  {
  }
}
