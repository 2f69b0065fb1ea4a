/** A stable sort on an integer key, the behaviour shared by JavaScript's
    `Array.prototype.sort` (stable since ES2019) and LINQ's `OrderBy`.
    It is written as an insertion sort: each element, in input order, goes
    after every already-sorted element whose key is not greater than its own. */
module StableSort {

  /** Keys never decrease along `s`. */
  predicate SortedBy<T>(s: seq<T>, key: T -> int) {
    forall i, j :: 0 <= i < j < |s| ==> key(s[i]) <= key(s[j])
  }

  /** Where a stable sort puts an element that came after all of `s`: past
      every element whose key is at most `key(x)`. */
  function InsertPos<T>(s: seq<T>, x: T, key: T -> int): (k: nat)
    requires SortedBy(s, key)
    ensures k <= |s|
    ensures forall i :: 0 <= i < k ==> key(s[i]) <= key(x)
    ensures forall i :: k <= i < |s| ==> key(x) < key(s[i])
    decreases |s|
  {
    if |s| == 0 || key(x) < key(s[0]) then 0
    else 1 + InsertPos(s[1..], x, key)
  }

  /** Inserts `x` into the sorted `s` at `InsertPos`. */
  function InsertByKey<T>(s: seq<T>, x: T, key: T -> int): (r: seq<T>)
    requires SortedBy(s, key)
    ensures |r| == |s| + 1
    ensures SortedBy(r, key)
  {
    var k := InsertPos(s, x, key);
    var r := s[..k] + [x] + s[k..];
    assert forall i :: 0 <= i < |r| ==> r[i] == if i < k then s[i] else if i == k then x else s[i - 1];
    r
  }

  /** Stable sort by `key`. */
  function SortBy<T>(s: seq<T>, key: T -> int): (r: seq<T>)
    ensures |r| == |s|
    ensures SortedBy(r, key)
    decreases |s|
  {
    if |s| == 0 then []
    else InsertByKey(SortBy(s[..|s| - 1], key), s[|s| - 1], key)
  }

  lemma {:induction false} InsertByKeyPermutes<T>(s: seq<T>, x: T, key: T -> int)
    requires SortedBy(s, key)
    ensures multiset(InsertByKey(s, x, key)) == multiset(s) + multiset{x}
  {
    var k := InsertPos(s, x, key);
    assert InsertByKey(s, x, key) == s[..k] + [x] + s[k..];
    calc {
      multiset(InsertByKey(s, x, key));
      multiset(s[..k]) + multiset{x} + multiset(s[k..]);
      multiset(s[..k] + s[k..]) + multiset{x};
      { assert s[..k] + s[k..] == s; }
      multiset(s) + multiset{x};
    }
  }

  /** The sorted sequence holds exactly the input's elements. */
  lemma {:induction false} SortByPermutes<T>(s: seq<T>, key: T -> int)
    ensures multiset(SortBy(s, key)) == multiset(s)
    decreases |s|
  {
    if |s| > 0 {
      var init := s[..|s| - 1];
      var last := s[|s| - 1];
      SortByPermutes(init, key);
      InsertByKeyPermutes(SortBy(init, key), last, key);
      assert SortBy(s, key) == InsertByKey(SortBy(init, key), last, key);
      assert s == init + [last];
      assert multiset(s) == multiset(init) + multiset{last};
    }
  }

  /** Sorting a sequence that is already sorted leaves it as it is. */
  lemma {:induction false} SortBySortedIsIdentity<T>(s: seq<T>, key: T -> int)
    requires SortedBy(s, key)
    ensures SortBy(s, key) == s
    decreases |s|
  {
    if |s| > 0 {
      var init := s[..|s| - 1];
      assert SortedBy(init, key);
      SortBySortedIsIdentity(init, key);
      assert init + [s[|s| - 1]] == s;
    }
  }
}
