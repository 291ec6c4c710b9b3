/** Sorting and the rank statistic used by a median filter. */
module OrderStatistics {

  predicate Sorted(s: seq<real>) {
    forall a, b :: 0 <= a < b < |s| ==> s[a] <= s[b]
  }

  lemma SortedCons(a: real, s: seq<real>)
    requires Sorted(s)
    requires forall k :: 0 <= k < |s| ==> a <= s[k]
    ensures Sorted([a] + s)
  {
  }

  /** Inserts `x` into a sorted sequence. */
  function Insert(x: real, s: seq<real>): (r: seq<real>)
    requires Sorted(s)
    ensures Sorted(r)
    ensures multiset(r) == multiset(s) + multiset{x}
    decreases |s|
  {
    if s == [] then [x]
    else if x <= s[0] then
      SortedCons(x, s);
      [x] + s
    else
      var rest := Insert(x, s[1..]);
      assert s == [s[0]] + s[1..];
      assert forall k :: 0 <= k < |rest| ==> s[0] <= rest[k] by {
        forall k | 0 <= k < |rest| ensures s[0] <= rest[k] {
          assert rest[k] in multiset(rest);
          assert rest[k] == x || rest[k] in multiset(s[1..]);
        }
      }
      SortedCons(s[0], rest);
      [s[0]] + rest
  }

  /** Insertion sort. */
  function Sort(s: seq<real>): (r: seq<real>)
    ensures Sorted(r)
    ensures multiset(r) == multiset(s)
    decreases |s|
  {
    if s == [] then []
    else
      assert s == [s[0]] + s[1..];
      Insert(s[0], Sort(s[1..]))
  }

  /** The element of rank |s|/2 (0-based) of a non-empty sequence: scipy's median rank `size // 2`. */
  function Median(s: seq<real>): real
    requires |s| > 0
  {
    var t := Sort(s);
    assert |t| == |multiset(t)| == |multiset(s)| == |s|;
    t[|s| / 2]
  }

  /** The number of elements strictly below `v`. */
  function CountBelow(s: seq<real>, v: real): nat {
    if s == [] then 0 else (if s[0] < v then 1 else 0) + CountBelow(s[1..], v)
  }

  /** The number of elements at most `v`. */
  function CountAtMost(s: seq<real>, v: real): nat {
    if s == [] then 0 else (if s[0] <= v then 1 else 0) + CountAtMost(s[1..], v)
  }

  lemma {:induction false} InsertCounts(x: real, s: seq<real>, v: real)
    requires Sorted(s)
    ensures CountBelow(Insert(x, s), v) == CountBelow(s, v) + (if x < v then 1 else 0)
    ensures CountAtMost(Insert(x, s), v) == CountAtMost(s, v) + (if x <= v then 1 else 0)
    decreases |s|
  {
    if s != [] && x > s[0] {
      InsertCounts(x, s[1..], v);
      var r := [s[0]] + Insert(x, s[1..]);
      assert r[1..] == Insert(x, s[1..]);
    } else if s != [] {
      assert ([x] + s)[1..] == s;
    }
  }

  /** Sorting does not change how many elements lie below or at a value. */
  lemma {:induction false} SortCounts(s: seq<real>, v: real)
    ensures CountBelow(Sort(s), v) == CountBelow(s, v)
    ensures CountAtMost(Sort(s), v) == CountAtMost(s, v)
    decreases |s|
  {
    if s != [] {
      SortCounts(s[1..], v);
      InsertCounts(s[0], Sort(s[1..]), v);
    }
  }

  /** In a sorted sequence the element at index r has at most r elements below it and r + 1 at or below it. */
  lemma {:induction false} SortedRank(t: seq<real>, r: nat)
    requires Sorted(t) && r < |t|
    ensures CountBelow(t, t[r]) <= r
    ensures CountAtMost(t, t[r]) >= r + 1
    decreases r
  {
    if r == 0 {
      NoneBelow(t, t[0]);
    } else {
      assert Sorted(t[1..]);
      SortedRank(t[1..], r - 1);
      assert t[1..][r - 1] == t[r];
    }
  }

  lemma {:induction false} NoneBelow(t: seq<real>, v: real)
    requires forall k :: 0 <= k < |t| ==> t[k] >= v
    ensures CountBelow(t, v) == 0
    decreases |t|
  {
    if t != [] {
      NoneBelow(t[1..], v);
    }
  }

  /**
   * The median is an element of the window and is its order statistic of rank |s|/2:
   * at most |s|/2 elements lie strictly below it and more than |s|/2 lie at or below it.
   */
  lemma MedianIsRankStatistic(s: seq<real>)
    requires |s| > 0
    ensures Median(s) in s
    ensures CountBelow(s, Median(s)) <= |s| / 2 < CountAtMost(s, Median(s))
  {
    var t := Sort(s);
    assert |t| == |multiset(t)| == |multiset(s)| == |s|;
    assert t[|s| / 2] in multiset(t);
    SortedRank(t, |s| / 2);
    SortCounts(s, t[|s| / 2]);
  }

  /** The median of a window whose samples all equal c is c. */
  lemma MedianOfConstant(s: seq<real>, c: real)
    requires |s| > 0
    requires forall k :: 0 <= k < |s| ==> s[k] == c
    ensures Median(s) == c
  {
    MedianIsRankStatistic(s);
  }
}
