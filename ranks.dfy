/** Ranks: the position of a taxonomy node as the path of sibling indices
    from the root, the comparator `PromptGroup.compareTo` over them, and the
    stable sort the selection tree uses to keep children in rank order. */
module Ranks {

  /** Path of sibling indices from the taxonomy root. */
  type Rank = seq<nat>

  /** Entry `i` of a rank, with a missing entry read as -1 (the `?? -1` of compareTo). */
  function At(a: Rank, i: nat): int
  {
    if i < |a| then a[i] else -1
  }

  /** Strict lexicographic order: a proper prefix comes before its extensions. */
  predicate Before(a: Rank, b: Rank)
  {
    if a == [] then b != []
    else if b == [] then false
    else a[0] < b[0] || (a[0] == b[0] && Before(a[1..], b[1..]))
  }

  predicate RankLe(a: Rank, b: Rank)
  {
    a == b || Before(a, b)
  }

  lemma {:induction false} BeforeIrreflexive(a: Rank)
    ensures !Before(a, a)
  {
    if a != [] {
      BeforeIrreflexive(a[1..]);
    }
  }

  lemma {:induction false} BeforeAsymmetric(a: Rank, b: Rank)
    ensures Before(a, b) ==> !Before(b, a)
  {
    if a != [] && b != [] {
      BeforeAsymmetric(a[1..], b[1..]);
    }
  }

  lemma {:induction false} BeforeTransitive(a: Rank, b: Rank, c: Rank)
    requires Before(a, b) && Before(b, c)
    ensures Before(a, c)
  {
    if a != [] && a[0] == b[0] && b[0] == c[0] {
      BeforeTransitive(a[1..], b[1..], c[1..]);
    }
  }

  lemma {:induction false} BeforeTotal(a: Rank, b: Rank)
    ensures a == b || Before(a, b) || Before(b, a)
  {
    if a != [] && b != [] && a[0] == b[0] {
      BeforeTotal(a[1..], b[1..]);
      if a[1..] == b[1..] {
        assert a == [a[0]] + a[1..] && b == [b[0]] + b[1..];
      }
    }
  }

  lemma RankLeTransitive(a: Rank, b: Rank, c: Rank)
    requires RankLe(a, b) && RankLe(b, c)
    ensures RankLe(a, c)
  {
    if a != b && b != c {
      BeforeTransitive(a, b, c);
    }
  }

  /** A proper prefix sorts before any of its extensions. */
  lemma {:induction false} PrefixBefore(a: Rank, b: Rank)
    requires |a| < |b| && a == b[..|a|]
    ensures Before(a, b)
  {
    if a != [] {
      assert a[1..] == b[1..][..|a| - 1];
      PrefixBefore(a[1..], b[1..]);
    }
  }

  /** Two ranks that agree at every padded index below `i` and differ at `i`
      are ordered by their entries at `i`. */
  lemma {:induction false} BeforeAtFirstDifference(a: Rank, b: Rank, i: nat)
    requires forall j :: 0 <= j < i ==> At(a, j) == At(b, j)
    requires At(a, i) != At(b, i)
    ensures a != b
    ensures Before(a, b) <==> At(a, i) < At(b, i)
  {
    if i > 0 && a != [] && b != [] {
      assert At(a, 0) == At(b, 0);
      forall j | 0 <= j < i - 1
        ensures At(a[1..], j) == At(b[1..], j)
      {
        assert At(a, j + 1) == At(b, j + 1);
      }
      BeforeAtFirstDifference(a[1..], b[1..], i - 1);
    } else if i > 0 {
      assert At(a, 0) == At(b, 0);
    }
  }

  /** Ranks that agree at every padded index up to the longer length are equal. */
  lemma AgreeEverywhere(a: Rank, b: Rank, n: nat)
    requires n >= |a| && n >= |b|
    requires forall j :: 0 <= j < n ==> At(a, j) == At(b, j)
    ensures a == b
  {
    var m := if |a| < |b| then |a| else |b|;
    if m < n {
      assert At(a, m) == At(b, m);
    }
    forall j | 0 <= j < |a| ensures a[j] == b[j] {
      assert At(a, j) == At(b, j);
    }
  }

  /** `PromptGroup.compareTo` on two ranks: an index loop over the longer
      length, comparing padded entries, falling back to the length difference. */
  method CompareTo(a: Rank, b: Rank) returns (r: int)
    ensures r < 0 <==> Before(a, b)
    ensures r == 0 <==> a == b
    ensures r > 0 <==> Before(b, a)
  {
    var len := if |a| > |b| then |a| else |b|;
    var i := 0;
    while i < len
      invariant 0 <= i <= len
      invariant forall j :: 0 <= j < i ==> At(a, j) == At(b, j)
    {
      var ret := At(a, i) - At(b, i);
      if ret != 0 {
        BeforeAtFirstDifference(a, b, i);
        forall j | 0 <= j < i ensures At(b, j) == At(a, j) { }
        BeforeAtFirstDifference(b, a, i);
        return ret;
      }
      i := i + 1;
    }
    AgreeEverywhere(a, b, len);
    BeforeIrreflexive(a);
    r := |a| - |b|;
  }

  // ---------------------------------------------------------------------
  // Stable sort by rank (Array.prototype.sort with compareTo is stable).

  predicate SortedBy<T>(s: seq<T>, key: T -> Rank)
  {
    forall i, j :: 0 <= i < j < |s| ==> RankLe(key(s[i]), key(s[j]))
  }

  /** Inserts `x` after every element whose key is not after `x`'s key. */
  function Insert<T>(x: T, s: seq<T>, key: T -> Rank): seq<T>
  {
    if s == [] then [x]
    else if Before(key(x), key(s[0])) then [x] + s
    else [s[0]] + Insert(x, s[1..], key)
  }

  /** Stable insertion sort: elements are taken left to right. */
  function SortBy<T>(s: seq<T>, key: T -> Rank): seq<T>
  {
    if s == [] then [] else Insert(s[|s| - 1], SortBy(s[..|s| - 1], key), key)
  }

  lemma {:induction false} InsertFacts<T>(x: T, s: seq<T>, key: T -> Rank)
    requires SortedBy(s, key)
    ensures SortedBy(Insert(x, s, key), key)
    ensures multiset(Insert(x, s, key)) == multiset(s) + multiset{x}
  {
    InsertPerm(x, s, key);
    InsertSorted(x, s, key);
  }

  lemma {:induction false} InsertPerm<T>(x: T, s: seq<T>, key: T -> Rank)
    ensures multiset(Insert(x, s, key)) == multiset(s) + multiset{x}
  {
    if s != [] && !Before(key(x), key(s[0])) {
      InsertPerm(x, s[1..], key);
      assert s == [s[0]] + s[1..];
    }
  }

  /** A head no later than every element of a sorted tail keeps it sorted. */
  lemma SortedCons<T>(h: T, t: seq<T>, key: T -> Rank)
    requires SortedBy(t, key) && forall j :: 0 <= j < |t| ==> RankLe(key(h), key(t[j]))
    ensures SortedBy([h] + t, key)
  {
    var u := [h] + t;
    forall i, j | 0 <= i < j < |u| ensures RankLe(key(u[i]), key(u[j])) {
      if i > 0 {
        assert u[i] == t[i - 1] && u[j] == t[j - 1];
      } else {
        assert u[j] == t[j - 1];
      }
    }
  }

  lemma {:induction false} InsertSorted<T>(x: T, s: seq<T>, key: T -> Rank)
    requires SortedBy(s, key)
    ensures SortedBy(Insert(x, s, key), key)
  {
    if s == [] {
    } else if Before(key(x), key(s[0])) {
      forall j | 0 <= j < |s| ensures RankLe(key(x), key(s[j])) {
        if j > 0 {
          RankLeTransitive(key(x), key(s[0]), key(s[j]));
        }
      }
      SortedCons(x, s, key);
    } else {
      var rest := s[1..];
      InsertSorted(x, rest, key);
      InsertPerm(x, rest, key);
      var t := Insert(x, rest, key);
      BeforeTotal(key(x), key(s[0]));
      forall j | 0 <= j < |t| ensures RankLe(key(s[0]), key(t[j])) {
        assert t[j] in multiset(t);
        if t[j] != x {
          assert t[j] in multiset(rest);
          var k :| 0 <= k < |rest| && rest[k] == t[j];
          assert s[k + 1] == t[j];
        }
      }
      SortedCons(s[0], t, key);
    }
  }

  /** The sort returns its input's elements in non-decreasing rank order. */
  lemma {:induction false} SortByFacts<T>(s: seq<T>, key: T -> Rank)
    ensures SortedBy(SortBy(s, key), key)
    ensures multiset(SortBy(s, key)) == multiset(s)
  {
    if s != [] {
      SortByFacts(s[..|s| - 1], key);
      InsertFacts(s[|s| - 1], SortBy(s[..|s| - 1], key), key);
      assert s == s[..|s| - 1] + [s[|s| - 1]];
    }
  }

  /** The elements of `s` whose key is `k`, in their order in `s`. */
  function WithRank<T>(s: seq<T>, key: T -> Rank, k: Rank): seq<T>
  {
    if s == [] then []
    else (if key(s[0]) == k then [s[0]] else []) + WithRank(s[1..], key, k)
  }

  lemma {:induction false} WithRankConcat<T>(a: seq<T>, b: seq<T>, key: T -> Rank, k: Rank)
    ensures WithRank(a + b, key, k) == WithRank(a, key, k) + WithRank(b, key, k)
  {
    if a == [] {
      assert a + b == b;
    } else {
      var h := if key(a[0]) == k then [a[0]] else [];
      assert (a + b)[0] == a[0];
      assert (a + b)[1..] == a[1..] + b;
      WithRankConcat(a[1..], b, key, k);
      assert WithRank(a + b, key, k) == h + WithRank(a[1..] + b, key, k);
      assert WithRank(a, key, k) == h + WithRank(a[1..], key, k);
    }
  }

  /** No element whose key comes after `k` has key `k`. */
  lemma {:induction false} WithRankNone<T>(s: seq<T>, key: T -> Rank, k: Rank)
    requires forall i :: 0 <= i < |s| ==> Before(k, key(s[i]))
    ensures WithRank(s, key, k) == []
  {
    if s != [] {
      BeforeIrreflexive(k);
      WithRankNone(s[1..], key, k);
    }
  }

  /** Inserting into a sorted sequence puts `x` after every element of its
      own rank and leaves the elements of every other rank as they were. */
  lemma {:induction false} InsertStable<T>(x: T, s: seq<T>, key: T -> Rank, k: Rank)
    requires SortedBy(s, key)
    ensures WithRank(Insert(x, s, key), key, k)
            == WithRank(s, key, k) + (if key(x) == k then [x] else [])
  {
    var xs := if key(x) == k then [x] else [];
    if s == [] {
      assert WithRank([x], key, k) == xs + WithRank([x][1..], key, k);
    } else if Before(key(x), key(s[0])) {
      var ins := [x] + s;
      assert ins[1..] == s;
      assert WithRank(ins, key, k) == xs + WithRank(s, key, k);
      if key(x) == k {
        forall i | 0 <= i < |s| ensures Before(k, key(s[i])) {
          if i > 0 && key(s[0]) != key(s[i]) {
            BeforeTransitive(k, key(s[0]), key(s[i]));
          }
        }
        WithRankNone(s, key, k);
      }
    } else {
      var h := if key(s[0]) == k then [s[0]] else [];
      var rest := Insert(x, s[1..], key);
      SortedTail(s, key);
      InsertStable(x, s[1..], key, k);
      var ins := [s[0]] + rest;
      assert ins[1..] == rest;
      assert WithRank(ins, key, k) == h + WithRank(rest, key, k);
      assert WithRank(s, key, k) == h + WithRank(s[1..], key, k);
    }
  }

  lemma SortedTail<T>(s: seq<T>, key: T -> Rank)
    requires s != [] && SortedBy(s, key)
    ensures SortedBy(s[1..], key)
  {
    forall i, j | 0 <= i < j < |s[1..]| ensures RankLe(key(s[1..][i]), key(s[1..][j])) {
      assert s[1..][i] == s[i + 1] && s[1..][j] == s[j + 1];
    }
  }

  /** The sort is stable: elements of equal rank come out in the order
      they went in. */
  lemma {:induction false} SortByStable<T>(s: seq<T>, key: T -> Rank, k: Rank)
    ensures WithRank(SortBy(s, key), key, k) == WithRank(s, key, k)
  {
    if s != [] {
      var init := s[..|s| - 1];
      SortByStable(init, key, k);
      StableStep(init, s[|s| - 1], key, k);
      assert s == init + [s[|s| - 1]];
    }
  }

  /** One insertion of the sort keeps the elements of rank `k` in order. */
  lemma StableStep<T>(init: seq<T>, x: T, key: T -> Rank, k: Rank)
    requires WithRank(SortBy(init, key), key, k) == WithRank(init, key, k)
    ensures WithRank(Insert(x, SortBy(init, key), key), key, k) == WithRank(init + [x], key, k)
  {
    var xs := if key(x) == k then [x] else [];
    SortByFacts(init, key);
    InsertStable(x, SortBy(init, key), key, k);
    assert WithRank([x], key, k) == xs + WithRank([x][1..], key, k);
    WithRankConcat(init, [x], key, k);
  }

  lemma {:induction false} InsertAtEnd<T>(x: T, s: seq<T>, key: T -> Rank)
    requires forall i :: 0 <= i < |s| ==> RankLe(key(s[i]), key(x))
    ensures Insert(x, s, key) == s + [x]
  {
    if s != [] {
      BeforeAsymmetric(key(x), key(s[0]));
      BeforeIrreflexive(key(x));
      InsertAtEnd(x, s[1..], key);
    }
  }

  /** Sorting children that are already in rank order changes nothing. */
  lemma {:induction false} SortBySorted<T>(s: seq<T>, key: T -> Rank)
    requires SortedBy(s, key)
    ensures SortBy(s, key) == s
  {
    if s != [] {
      var p := s[..|s| - 1];
      SortBySorted(p, key);
      InsertAtEnd(s[|s| - 1], p, key);
    }
  }
}
