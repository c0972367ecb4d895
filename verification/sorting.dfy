/** The orderings the pages ask of the database or of LINQ.
    `OrderBy`/`OrderByDescending` with no tiebreak leave the order of equal
    keys unspecified; the model fixes one admissible order (a stable
    insertion sort), and the lemmas claim only what every admissible order
    has: the keys are monotone and the elements are a permutation. */
module Sorting {
  import opened Text

  ghost predicate NonIncreasing<T>(s: seq<T>, key: T -> int) {
    forall i, j :: 0 <= i < j < |s| ==> key(s[i]) >= key(s[j])
  }

  ghost predicate NonDecreasing<T>(s: seq<T>, key: T -> int) {
    forall i, j :: 0 <= i < j < |s| ==> key(s[i]) <= key(s[j])
  }

  /** Inserts x before the first element whose key is not larger. */
  function InsertDesc<T>(x: T, s: seq<T>, key: T -> int): (r: seq<T>)
    requires NonIncreasing(s, key)
    ensures NonIncreasing(r, key)
    ensures multiset(r) == multiset(s) + multiset{x}
  {
    if s == [] then [x]
    else if key(x) >= key(s[0]) then [x] + s
    else
      var tail := InsertDesc(x, s[1..], key);
      HeadBoundsInsert(x, s, key, tail);
      [s[0]] + tail
  }

  /** When x goes behind s[0], s[0] still bounds everything after it. */
  lemma HeadBoundsInsert<T>(x: T, s: seq<T>, key: T -> int, tail: seq<T>)
    requires s != [] && NonIncreasing(s, key) && key(x) < key(s[0])
    requires NonIncreasing(tail, key)
    requires multiset(tail) == multiset(s[1..]) + multiset{x}
    ensures NonIncreasing([s[0]] + tail, key)
    ensures multiset([s[0]] + tail) == multiset(s) + multiset{x}
  {
    assert s == [s[0]] + s[1..];
    forall j | 0 <= j < |tail| ensures key(tail[j]) <= key(s[0]) {
      assert tail[j] in multiset(tail);
      if tail[j] != x {
        assert tail[j] in multiset(s[1..]);
        assert tail[j] in s[1..];
      }
    }
    var r := [s[0]] + tail;
    forall i, j | 0 <= i < j < |r| ensures key(r[i]) >= key(r[j]) {
      if i == 0 {
        assert r[j] == tail[j - 1];
      } else {
        assert r[i] == tail[i - 1] && r[j] == tail[j - 1];
      }
    }
  }

  /** `OrderByDescending(key)`. */
  function SortDesc<T>(s: seq<T>, key: T -> int): (r: seq<T>)
    ensures NonIncreasing(r, key)
    ensures multiset(r) == multiset(s)
  {
    if s == [] then []
    else
      assert s == [s[0]] + s[1..];
      InsertDesc(s[0], SortDesc(s[1..], key), key)
  }

  /** `OrderBy(key)`: sorting on the negated key. */
  function SortAsc<T>(s: seq<T>, key: T -> int): (r: seq<T>)
    ensures NonDecreasing(r, key)
    ensures multiset(r) == multiset(s)
  {
    var r := SortDesc(s, x => -key(x));
    assert forall i, j :: 0 <= i < j < |r| ==> -key(r[i]) >= -key(r[j]);
    r
  }

  /** No two different elements of s share a key. */
  ghost predicate KeyInjective<T>(s: seq<T>, key: T -> int) {
    forall x, y :: x in s && y in s && key(x) == key(y) ==> x == y
  }

  /** Without ties there is only one admissible order: two non-increasing
      arrangements of the same elements are equal. */
  lemma {:induction false} SortedDescUnique<T>(a: seq<T>, b: seq<T>, key: T -> int)
    requires NonIncreasing(a, key) && NonIncreasing(b, key)
    requires multiset(a) == multiset(b)
    requires KeyInjective(a, key)
    ensures a == b
    decreases |a|
  {
    assert |a| == |multiset(a)| == |multiset(b)| == |b|;
    if a != [] {
      HeadsAgree(a, b, key);
      TailPermutation(a, b);
      TailSorted(a, key);
      TailSorted(b, key);
      TailInjective(a, key);
      SortedDescUnique(a[1..], b[1..], key);
      assert a == [a[0]] + a[1..] && b == [b[0]] + b[1..];
    }
  }

  /** The same for `OrderBy`: two non-decreasing arrangements of the same
      elements without ties are equal. */
  lemma SortedAscUnique<T>(a: seq<T>, b: seq<T>, key: T -> int)
    requires NonDecreasing(a, key) && NonDecreasing(b, key)
    requires multiset(a) == multiset(b)
    requires KeyInjective(a, key)
    ensures a == b
  {
    var neg := (x: T) => -key(x);
    assert NonIncreasing(a, neg) && NonIncreasing(b, neg);
    forall x, y | x in a && y in a && neg(x) == neg(y) ensures x == y {
      assert key(x) == key(y);
    }
    SortedDescUnique(a, b, neg);
  }

  /** Both arrangements start with the element of largest key. */
  lemma HeadsAgree<T>(a: seq<T>, b: seq<T>, key: T -> int)
    requires a != [] && b != []
    requires NonIncreasing(a, key) && NonIncreasing(b, key)
    requires multiset(a) == multiset(b)
    requires KeyInjective(a, key)
    ensures a[0] == b[0]
  {
    assert b[0] in multiset(b) && a[0] in multiset(a);
    var i :| 0 <= i < |a| && a[i] == b[0];
    var j :| 0 <= j < |b| && b[j] == a[0];
    assert key(a[0]) >= key(a[i]) && key(b[0]) >= key(b[j]);
    assert a[0] in a && a[i] in a;
  }

  lemma TailPermutation<T>(a: seq<T>, b: seq<T>)
    requires a != [] && b != [] && a[0] == b[0]
    requires multiset(a) == multiset(b)
    ensures multiset(a[1..]) == multiset(b[1..])
  {
    assert a == [a[0]] + a[1..] && b == [b[0]] + b[1..];
    assert multiset(a[1..]) == multiset(a) - multiset{a[0]};
    assert multiset(b[1..]) == multiset(b) - multiset{b[0]};
  }

  lemma TailSorted<T>(s: seq<T>, key: T -> int)
    requires s != [] && NonIncreasing(s, key)
    ensures NonIncreasing(s[1..], key)
  {
    forall p, q | 0 <= p < q < |s[1..]| ensures key(s[1..][p]) >= key(s[1..][q]) {
      assert s[1..][p] == s[p + 1] && s[1..][q] == s[q + 1];
    }
  }

  lemma TailInjective<T>(s: seq<T>, key: T -> int)
    requires s != [] && KeyInjective(s, key)
    ensures KeyInjective(s[1..], key)
  {
    forall x, y | x in s[1..] && y in s[1..] && key(x) == key(y) ensures x == y {
      assert x in s && y in s;
    }
  }

  ghost predicate StrictlyIncreasing(s: seq<string>) {
    forall i, j :: 0 <= i < j < |s| ==> Less(s[i], s[j])
  }

  /** Inserts x into a strictly increasing list unless it is already there. */
  function InsertUnique(x: string, s: seq<string>): seq<string> {
    if s == [] then [x]
    else if x == s[0] then s
    else if Less(x, s[0]) then [x] + s
    else [s[0]] + InsertUnique(x, s[1..])
  }

  lemma {:induction false} InsertUniqueCorrect(x: string, s: seq<string>)
    requires StrictlyIncreasing(s)
    ensures StrictlyIncreasing(InsertUnique(x, s))
    ensures forall y :: y in InsertUnique(x, s) <==> y == x || y in s
  {
    if s == [] {
    } else if x == s[0] {
    } else if Less(x, s[0]) {
      forall j | 0 < j < |s| ensures Less(x, s[j]) {
        LessTransitive(x, s[0], s[j]);
      }
    } else {
      LessTotal(x, s[0]);
      InsertUniqueCorrect(x, s[1..]);
      var tail := InsertUnique(x, s[1..]);
      assert s == [s[0]] + s[1..];
      forall j | 0 <= j < |tail| ensures Less(s[0], tail[j]) {
        assert tail[j] in tail;
        if tail[j] != x {
          var k :| 0 <= k < |s[1..]| && s[1..][k] == tail[j];
          assert s[k + 1] == tail[j];
        }
      }
    }
  }

  /** LINQ `Distinct().OrderBy(a => a)` on strings, ordinal order. */
  function DistinctSorted(s: seq<string>): seq<string> {
    if s == [] then [] else InsertUnique(s[0], DistinctSorted(s[1..]))
  }

  /** The distinct sorted list is strictly increasing (so it holds no
      duplicates) and holds exactly the strings of s. */
  lemma {:induction false} DistinctSortedCorrect(s: seq<string>)
    ensures StrictlyIncreasing(DistinctSorted(s))
    ensures forall y :: y in DistinctSorted(s) <==> y in s
  {
    if s != [] {
      DistinctSortedCorrect(s[1..]);
      InsertUniqueCorrect(s[0], DistinctSorted(s[1..]));
      assert s == [s[0]] + s[1..];
    }
  }

  /** A strictly increasing list names each string at most once. */
  lemma StrictlyIncreasingDistinct(s: seq<string>, i: nat, j: nat)
    requires StrictlyIncreasing(s)
    requires i < j < |s|
    ensures s[i] != s[j]
  {
    LessIrreflexive(s[i]);
  }
}
