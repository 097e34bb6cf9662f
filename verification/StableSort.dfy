/** A stable sort into descending key order, as `list.sort(key=k, reverse=True)`
    does it in Python: larger keys first, and elements with equal keys keep the
    order they had in the input. The sort itself is an insertion sort; its
    specification is `IsStableSortOf`, which is shown to determine the result. */
module StableSort {

  /** Keys never increase from left to right. */
  ghost predicate SortedDesc<T>(s: seq<T>, key: T -> int) {
    forall i, j :: 0 <= i < j < |s| ==> key(s[i]) >= key(s[j])
  }

  /** The elements of `s` whose key is `k`, in their order in `s`. */
  function WithKey<T>(s: seq<T>, key: T -> int, k: int): (r: seq<T>)
    ensures |r| <= |s|
    ensures forall i :: 0 <= i < |r| ==> key(r[i]) == k
  {
    if |s| == 0 then []
    else (if key(s[0]) == k then [s[0]] else []) + WithKey(s[1..], key, k)
  }

  /** `r` is a stable descending sort of `s`: it is sorted, and for every key
      the elements carrying that key appear in `r` exactly as in `s`. */
  ghost predicate IsStableSortOf<T>(r: seq<T>, s: seq<T>, key: T -> int) {
    SortedDesc(r, key) && forall k :: WithKey(r, key, k) == WithKey(s, key, k)
  }

  /** Places `x` into `s` after every element with a larger key and before
      the first element whose key is not larger. */
  function Insert<T>(x: T, s: seq<T>, key: T -> int): (r: seq<T>)
    ensures |r| == |s| + 1
    ensures r[0] == x || (|s| > 0 && r[0] == s[0])
    ensures SortedDesc(s, key) ==> SortedDesc(r, key)
  {
    if |s| == 0 || key(s[0]) <= key(x) then [x] + s
    else [s[0]] + Insert(x, s[1..], key)
  }

  /** Insertion sort, inserting the first element into the sorted rest. */
  function Sort<T>(s: seq<T>, key: T -> int): (r: seq<T>)
    ensures |r| == |s|
    ensures SortedDesc(r, key)
  {
    if |s| == 0 then [] else Insert(s[0], Sort(s[1..], key), key)
  }

  lemma {:induction false} WithKeyAppend<T>(a: seq<T>, b: seq<T>, key: T -> int, k: int)
    ensures WithKey(a + b, key, k) == WithKey(a, key, k) + WithKey(b, key, k)
  {
    if |a| == 0 {
      assert a + b == b;
    } else {
      assert (a + b)[1..] == a[1..] + b;
      WithKeyAppend(a[1..], b, key, k);
    }
  }

  /** Inserting `x` adds it to its own key class, in front of the elements
      already there, and leaves every other key class unchanged. */
  lemma {:induction false} InsertWithKey<T>(x: T, s: seq<T>, key: T -> int, k: int)
    ensures WithKey(Insert(x, s, key), key, k)
         == (if key(x) == k then [x] else []) + WithKey(s, key, k)
  {
    if |s| == 0 || key(s[0]) <= key(x) {
      assert ([x] + s)[1..] == s;
    } else {
      InsertWithKey(x, s[1..], key, k);
      assert ([s[0]] + Insert(x, s[1..], key))[1..] == Insert(x, s[1..], key);
    }
  }

  /** The insertion sort is a stable descending sort. */
  lemma {:induction false} SortIsStable<T>(s: seq<T>, key: T -> int)
    ensures IsStableSortOf(Sort(s, key), s, key)
  {
    if |s| > 0 {
      SortIsStable(s[1..], key);
      forall k
        ensures WithKey(Sort(s, key), key, k) == WithKey(s, key, k)
      {
        InsertWithKey(s[0], Sort(s[1..], key), key, k);
      }
    }
  }

  /** Some element of `s` carries every key that has a non-empty class. */
  lemma {:induction false} WithKeyWitness<T>(s: seq<T>, key: T -> int, k: int)
    requires |WithKey(s, key, k)| > 0
    ensures exists i :: 0 <= i < |s| && key(s[i]) == k
  {
    if key(s[0]) != k {
      WithKeyWitness(s[1..], key, k);
      var i :| 0 <= i < |s[1..]| && key(s[1..][i]) == k;
      assert key(s[i + 1]) == k;
    }
  }

  /** A stable descending sort is unique: two sorted sequences with the same
      key classes are equal. */
  lemma {:induction false} SortedWithSameClassesEqual<T>(a: seq<T>, b: seq<T>, key: T -> int)
    requires SortedDesc(a, key) && SortedDesc(b, key)
    requires forall k :: WithKey(a, key, k) == WithKey(b, key, k)
    ensures a == b
    decreases |a|
  {
    if |a| > 0 { assert WithKey(a, key, key(a[0]))[0] == a[0]; }
    if |b| > 0 { assert WithKey(b, key, key(b[0]))[0] == b[0]; }
    if |a| == 0 || |b| == 0 {
      // an element on one side would need a non-empty key class on the other
    } else {
      var ka, kb := key(a[0]), key(b[0]);
      // the largest key of a occurs in b, so it is at most the largest key of b
      WithKeyWitness(b, key, ka);
      WithKeyWitness(a, key, kb);
      assert ka == kb;
      assert a[0] == WithKey(a, key, ka)[0] == WithKey(b, key, kb)[0] == b[0];
      forall k
        ensures WithKey(a[1..], key, k) == WithKey(b[1..], key, k)
      {
        if k == ka {
          assert WithKey(a[1..], key, k) == WithKey(a, key, k)[1..];
          assert WithKey(b[1..], key, k) == WithKey(b, key, k)[1..];
        } else {
          assert WithKey(a[1..], key, k) == WithKey(a, key, k);
          assert WithKey(b[1..], key, k) == WithKey(b, key, k);
        }
      }
      SortedWithSameClassesEqual(a[1..], b[1..], key);
      assert a == [a[0]] + a[1..] && b == [b[0]] + b[1..];
    }
  }

  /** Any stable descending sort of `s` is exactly what `Sort` returns. */
  lemma StableSortUnique<T>(r: seq<T>, s: seq<T>, key: T -> int)
    requires IsStableSortOf(r, s, key)
    ensures r == Sort(s, key)
  {
    SortIsStable(s, key);
    SortedWithSameClassesEqual(r, Sort(s, key), key);
  }

  /** Sorting only rearranges: the result is a permutation of the input. */
  lemma {:induction false} SortPermutes<T>(s: seq<T>, key: T -> int)
    ensures multiset(Sort(s, key)) == multiset(s)
  {
    if |s| > 0 {
      SortPermutes(s[1..], key);
      InsertPermutes(s[0], Sort(s[1..], key), key);
      assert s == [s[0]] + s[1..];
    }
  }

  lemma {:induction false} InsertPermutes<T>(x: T, s: seq<T>, key: T -> int)
    ensures multiset(Insert(x, s, key)) == multiset{x} + multiset(s)
  {
    if |s| > 0 && key(s[0]) > key(x) {
      InsertPermutes(x, s[1..], key);
      assert s == [s[0]] + s[1..];
    }
  }

  /** A sequence whose elements all share one key is its own stable sort. */
  lemma SortOfEqualKeys<T>(s: seq<T>, key: T -> int, k: int)
    requires forall i :: 0 <= i < |s| ==> key(s[i]) == k
    ensures Sort(s, key) == s
  {
    StableSortUnique(s, s, key);
  }

  /** Cutting a sorted sequence after `n` elements keeps, for every key,
      a prefix of that key's class: ties are cut in their original order. */
  lemma TakeKeepsClassPrefix<T>(s: seq<T>, key: T -> int, n: nat)
    requires n <= |s|
    ensures forall k :: WithKey(s[..n], key, k) <= WithKey(s, key, k)
  {
    forall k
      ensures WithKey(s[..n], key, k) <= WithKey(s, key, k)
    {
      assert s == s[..n] + s[n..];
      WithKeyAppend(s[..n], s[n..], key, k);
    }
  }

  /** In a sorted sequence, whatever lies past the first `n` elements has a
      key no larger than any of those `n`. */
  lemma CutBelowKept<T>(s: seq<T>, key: T -> int, n: nat, x: T, y: T)
    requires SortedDesc(s, key) && n <= |s|
    requires x in multiset(s) - multiset(s[..n])
    requires y in s[..n]
    ensures key(x) <= key(y)
  {
    assert s == s[..n] + s[n..];
    assert multiset(s) == multiset(s[..n]) + multiset(s[n..]);
    assert x in s[n..];
    var j :| 0 <= j < |s[n..]| && s[n..][j] == x;
    var i :| 0 <= i < n && s[..n][i] == y;
    assert s[n + j] == x && s[i] == y;
  }
}
