/**
 * The two table operations the dashboard leans on: pandas' `sort_values(by=...)` over an integer
 * column, and `median()` over an integer column. The median is kept exact: for an even count it
 * is the mean of the two middle values, a multiple of one half, so it is held doubled.
 */
module Stats {

  // ---------------------------------------------------------------- sorting by an integer key

  /** `s` is in ascending order of `key`. */
  predicate SortedBy<T>(s: seq<T>, key: T -> int) {
    forall i, j :: 0 <= i < j < |s| ==> key(s[i]) <= key(s[j])
  }

  /** `x` placed in front of the first element of the sorted `s` whose key is not smaller. */
  function InsertBy<T>(x: T, s: seq<T>, key: T -> int): (r: seq<T>)
    requires SortedBy(s, key)
    ensures SortedBy(r, key)
    ensures multiset(r) == multiset(s) + multiset{x}
    decreases |s|
  {
    if s == [] then [x]
    else if key(x) <= key(s[0]) then
      SortedCons(x, s, key);
      [x] + s
    else
      var rest := InsertBy(x, s[1..], key);
      InsertBehind(x, s, key, rest);
      [s[0]] + rest
  }

  /** An element with a key no larger than any key of a sorted sequence can go in front of it. */
  lemma SortedCons<T>(a: T, r: seq<T>, key: T -> int)
    requires SortedBy(r, key) && (r == [] || key(a) <= key(r[0]))
    ensures SortedBy([a] + r, key)
  {
    var t := [a] + r;
    forall i, j | 0 <= i < j < |t| ensures key(t[i]) <= key(t[j]) {
      if i == 0 {
        assert key(r[0]) <= key(r[j - 1]) || j == 1;
      } else {
        assert key(r[i - 1]) <= key(r[j - 1]);
      }
    }
  }

  /** The first element stays in front when `x`, with a larger key, is inserted into the rest. */
  lemma InsertBehind<T>(x: T, s: seq<T>, key: T -> int, rest: seq<T>)
    requires SortedBy(s, key) && s != [] && key(s[0]) < key(x)
    requires SortedBy(rest, key) && multiset(rest) == multiset(s[1..]) + multiset{x}
    ensures SortedBy([s[0]] + rest, key)
    ensures multiset([s[0]] + rest) == multiset(s) + multiset{x}
  {
    assert s == [s[0]] + s[1..];
    if rest != [] {
      assert rest[0] in multiset(rest);
      if rest[0] != x {
        assert rest[0] in s[1..];
      }
    }
    SortedCons(s[0], rest, key);
  }

  /** The rows of `s` in ascending order of `key`: a sorted permutation of `s`. */
  function SortBy<T>(s: seq<T>, key: T -> int): (r: seq<T>)
    ensures SortedBy(r, key)
    ensures multiset(r) == multiset(s)
    decreases |s|
  {
    if s == [] then []
    else
      var init := s[..|s| - 1];
      assert s == init + [s[|s| - 1]];
      InsertBy(s[|s| - 1], SortBy(init, key), key)
  }

  /** Ties come out in reverse order: of two elements with the same key, the later one goes first. */
  lemma SortTiesReversed<T>(a: T, b: T, key: T -> int)
    requires key(a) == key(b)
    ensures SortBy([a, b], key) == [b, a]
  {
    assert [a, b][..1] == [a];
    assert [a][..0] == [];
  }

  /** The identity, the key that sorts integers by their own value. */
  function Id(x: int): int {
    x
  }

  /** Dropping the first element keeps a sorted sequence sorted. */
  lemma SortedTail<T>(s: seq<T>, key: T -> int)
    requires SortedBy(s, key) && s != []
    ensures SortedBy(s[1..], key)
  {
  }

  /** The first element of a sorted sequence has the least key. */
  lemma SortedLeast<T>(s: seq<T>, key: T -> int)
    requires SortedBy(s, key) && s != []
    ensures forall y :: y in s ==> key(s[0]) <= key(y)
  {
    forall y | y in s ensures key(s[0]) <= key(y) {
      var i :| 0 <= i < |s| && s[i] == y;
      if i > 0 {
        assert key(s[0]) <= key(s[i]);
      }
    }
  }

  /** What is left of the values once the one at `k` is taken away. */
  lemma RemoveOne<T>(s: seq<T>, k: int)
    requires 0 <= k < |s|
    ensures multiset(s[..k] + s[k + 1..]) == multiset(s) - multiset{s[k]}
  {
    assert s == s[..k] + [s[k]] + s[k + 1..];
  }

  /** What is left of the values once the first is taken away. */
  lemma TailMultiset<T>(s: seq<T>)
    requires s != []
    ensures multiset(s[1..]) == multiset(s) - multiset{s[0]}
  {
    assert s == [s[0]] + s[1..];
  }

  /** Two ascending arrangements of the same integers are the same sequence. */
  lemma {:induction false} SortedUnique(a: seq<int>, b: seq<int>)
    requires SortedBy(a, Id) && SortedBy(b, Id) && multiset(a) == multiset(b)
    ensures a == b
    decreases |a|
  {
    if a == [] {
      assert multiset(b) == multiset{};
    } else {
      SameLeast(a, b);
      SortedTail(a, Id);
      SortedTail(b, Id);
      SameTails(a, b);
      SortedUnique(a[1..], b[1..]);
      SameHeadAndTail(a, b);
    }
  }

  /** Removing the same first element from two arrangements of one multiset leaves equal multisets. */
  lemma SameTails<T>(a: seq<T>, b: seq<T>)
    requires a != [] && b != [] && a[0] == b[0] && multiset(a) == multiset(b)
    ensures multiset(a[1..]) == multiset(b[1..])
  {
    TailMultiset(a);
    TailMultiset(b);
  }

  lemma SameHeadAndTail<T>(a: seq<T>, b: seq<T>)
    requires a != [] && b != [] && a[0] == b[0] && a[1..] == b[1..]
    ensures a == b
  {
    assert a == [a[0]] + a[1..] && b == [b[0]] + b[1..];
  }

  /** Two ascending arrangements of the same integers start with the same, least, value. */
  lemma SameLeast(a: seq<int>, b: seq<int>)
    requires SortedBy(a, Id) && SortedBy(b, Id) && multiset(a) == multiset(b) && a != []
    ensures b != [] && a[0] == b[0]
  {
    assert a[0] in multiset(b);
    assert b != [];
    assert b[0] in multiset(a);
    SortedLeast(a, Id);
    SortedLeast(b, Id);
    assert Id(b[0]) <= Id(a[0]) && Id(a[0]) <= Id(b[0]);
  }

  // ---------------------------------------------------------------- counting

  /** How many elements of `s` satisfy `p`. */
  function Count(s: seq<int>, p: int -> bool): (n: nat)
    ensures n <= |s|
    decreases |s|
  {
    if s == [] then 0 else Count(s[..|s| - 1], p) + (if p(s[|s| - 1]) then 1 else 0)
  }

  /** A count depends only on which values occur how often, not on their order. */
  lemma {:induction false} CountPermutation(a: seq<int>, b: seq<int>, p: int -> bool)
    requires multiset(a) == multiset(b)
    ensures Count(a, p) == Count(b, p)
    decreases |a|
  {
    if a != [] {
      var x := a[|a| - 1];
      var a' := a[..|a| - 1];
      assert x in multiset(b);
      var k :| 0 <= k < |b| && b[k] == x;
      RemoveOne(b, k);
      RemoveOne(a, |a| - 1);
      assert a[..|a| - 1] + a[|a|..] == a';
      CountPermutation(a', b[..k] + b[k + 1..], p);
      CountRemove(b, k, p);
    } else {
      assert multiset(b) == multiset{};
    }
  }

  /** The count over a sequence is the count without the element at `k`, plus one if that element counts. */
  lemma {:induction false} CountRemove(b: seq<int>, k: int, p: int -> bool)
    requires 0 <= k < |b|
    ensures Count(b, p) == Count(b[..k] + b[k + 1..], p) + (if p(b[k]) then 1 else 0)
    decreases |b|
  {
    var n := |b| - 1;
    if k == n {
      assert b[..k] + b[k + 1..] == b[..n];
    } else {
      var init := b[..n];
      var rest := init[..k] + init[k + 1..];
      CountRemove(init, k, p);
      assert init[k] == b[k];
      var r := b[..k] + b[k + 1..];
      assert r == rest + [b[n]];
      assert r[..|r| - 1] == rest;
    }
  }

  /** When the first `k` elements satisfy `p`, at least `k` elements do. */
  lemma {:induction false} CountPrefix(s: seq<int>, p: int -> bool, k: nat)
    requires k <= |s| && forall i :: 0 <= i < k ==> p(s[i])
    ensures Count(s, p) >= k
    decreases |s|
  {
    if |s| > k {
      CountPrefix(s[..|s| - 1], p, k);
    } else if k > 0 {
      CountPrefix(s[..|s| - 1], p, k - 1);
    }
  }

  /** When the last `k` elements satisfy `p`, at least `k` elements do. */
  lemma {:induction false} CountSuffix(s: seq<int>, p: int -> bool, k: nat)
    requires k <= |s| && forall i :: |s| - k <= i < |s| ==> p(s[i])
    ensures Count(s, p) >= k
    decreases |s|
  {
    if k > 0 {
      CountSuffix(s[..|s| - 1], p, k - 1);
    }
  }

  // ---------------------------------------------------------------- median

  /** A number that is a multiple of one half, held doubled: `Half(d)` stands for d / 2. */
  datatype Half = Half(doubled: int)

  /** pandas' `median()`: the middle value of the sorted values, or the mean of the two middle ones. */
  function Median(s: seq<int>): Half
    requires |s| > 0
  {
    Middle(SortBy(s, Id))
  }

  /** The middle of a sequence: its middle element, or the mean of its two middle elements. */
  function Middle(t: seq<int>): Half
    requires |t| > 0
  {
    var n := |t|;
    if n % 2 == 1 then Half(2 * t[n / 2]) else Half(t[n / 2 - 1] + t[n / 2])
  }

  /** `2x <= m`: `x` is at most the half-number `m`. */
  function AtMost(m: Half): int -> bool {
    x => 2 * x <= m.doubled
  }

  /** `2x >= m`: `x` is at least the half-number `m`. */
  function AtLeast(m: Half): int -> bool {
    x => 2 * x >= m.doubled
  }

  /** The number of elements on each side of the middle, the middle included: ⌈n / 2⌉. */
  function HalfCount(n: nat): nat {
    if n % 2 == 1 then n / 2 + 1 else n / 2
  }

  /** The middle of a sorted sequence lies between its ⌈n / 2⌉-th element and its ⌈n / 2⌉-th from the end. */
  lemma MiddlePlace(t: seq<int>)
    requires |t| > 0 && SortedBy(t, Id)
    ensures 2 * t[HalfCount(|t|) - 1] <= Middle(t).doubled <= 2 * t[|t| - HalfCount(|t|)]
  {
    var n := |t|;
    if n % 2 == 0 {
      assert Id(t[n / 2 - 1]) <= Id(t[n / 2]);
    }
  }

  /** In a sorted sequence, the first ⌈n / 2⌉ elements are at most the middle. */
  lemma MiddleAbove(t: seq<int>)
    requires |t| > 0 && SortedBy(t, Id)
    ensures Count(t, AtMost(Middle(t))) >= HalfCount(|t|)
  {
    var m := Middle(t);
    var low := HalfCount(|t|);
    MiddlePlace(t);
    forall i | 0 <= i < low ensures AtMost(m)(t[i]) {
      assert Id(t[i]) <= Id(t[low - 1]);
    }
    CountPrefix(t, AtMost(m), low);
  }

  /** In a sorted sequence, the last ⌈n / 2⌉ elements are at least the middle. */
  lemma MiddleBelow(t: seq<int>)
    requires |t| > 0 && SortedBy(t, Id)
    ensures Count(t, AtLeast(Middle(t))) >= HalfCount(|t|)
  {
    var m := Middle(t);
    var n := |t|;
    var low := HalfCount(n);
    MiddlePlace(t);
    forall i | n - low <= i < n ensures AtLeast(m)(t[i]) {
      assert Id(t[n - low]) <= Id(t[i]);
    }
    CountSuffix(t, AtLeast(m), low);
  }

  /** At least half of the values are at most the median, and at least half are at least the median. */
  lemma MedianSplits(s: seq<int>)
    requires |s| > 0
    ensures 2 * Count(s, AtMost(Median(s))) >= |s|
    ensures 2 * Count(s, AtLeast(Median(s))) >= |s|
  {
    var t := SortBy(s, Id);
    assert |t| == |multiset(t)| == |s|;
    MiddleAbove(t);
    MiddleBelow(t);
    CountPermutation(t, s, AtMost(Median(s)));
    CountPermutation(t, s, AtLeast(Median(s)));
  }

  /** The middle of a sorted sequence lies between its first and its last element. */
  lemma MiddleBounds(t: seq<int>)
    requires |t| > 0 && SortedBy(t, Id)
    ensures 2 * t[0] <= Middle(t).doubled <= 2 * t[|t| - 1]
  {
    var n := |t|;
    assert Id(t[0]) <= Id(t[(n - 1) / 2]) <= Id(t[n / 2]) <= Id(t[n - 1]);
  }

  /** The median lies between the smallest and the largest value. */
  lemma MedianBounds(s: seq<int>)
    requires |s| > 0
    ensures exists i :: 0 <= i < |s| && 2 * s[i] <= Median(s).doubled
    ensures exists j :: 0 <= j < |s| && Median(s).doubled <= 2 * s[j]
  {
    var t := SortBy(s, Id);
    assert |t| == |multiset(t)| == |s|;
    MiddleBounds(t);
    assert t[0] in multiset(s) && t[|t| - 1] in multiset(s);
  }

  /** The median does not depend on the order of the values. */
  lemma MedianOrderFree(a: seq<int>, b: seq<int>)
    requires |a| > 0 && multiset(a) == multiset(b)
    ensures |b| > 0 && Median(a) == Median(b)
  {
    assert |b| > 0 by {
      assert a[0] in multiset(b);
    }
    SortedUnique(SortBy(a, Id), SortBy(b, Id));
  }

  /** The median is the middle of any ascending arrangement of the values. */
  lemma MedianOfSorted(s: seq<int>, t: seq<int>)
    requires |s| > 0 && SortedBy(t, Id) && multiset(s) == multiset(t)
    ensures |t| > 0 && Median(s) == Middle(t)
  {
    assert s[0] in multiset(t);
    SortedUnique(SortBy(s, Id), t);
  }

  /** Truncated toward zero, the median still lies between the smallest and the largest value. */
  lemma TruncMedianBounds(s: seq<int>)
    requires |s| > 0
    ensures exists i :: 0 <= i < |s| && s[i] <= TruncHalf(Median(s))
    ensures exists j :: 0 <= j < |s| && TruncHalf(Median(s)) <= s[j]
  {
    MedianBounds(s);
    var i :| 0 <= i < |s| && 2 * s[i] <= Median(s).doubled;
    var j :| 0 <= j < |s| && Median(s).doubled <= 2 * s[j];
    assert s[i] <= TruncHalf(Median(s)) <= s[j];
  }

  /** Two sequences with the same elements, counted with multiplicity, have the same members and length. */
  lemma SameElements<T>(a: seq<T>, b: seq<T>)
    requires multiset(a) == multiset(b)
    ensures |a| == |b| && forall x :: x in a <==> x in b
  {
    assert |a| == |multiset(a)|;
    forall x ensures x in a <==> x in b {
      assert x in a <==> x in multiset(a);
    }
  }

  /** Values that are all equal have that value as their median. */
  lemma MedianOfEqual(s: seq<int>, v: int)
    requires |s| > 0 && forall i :: 0 <= i < |s| ==> s[i] == v
    ensures Median(s) == Half(2 * v)
  {
    MedianBounds(s);
  }

  /** Python's `int()` of a half-number: the value truncated toward zero. */
  function TruncHalf(m: Half): (r: int)
    ensures 0 <= 2 * r <= m.doubled < 2 * r + 2 || 2 * r - 2 < m.doubled <= 2 * r <= 0
  {
    if m.doubled >= 0 then m.doubled / 2 else -((-m.doubled) / 2)
  }
}
