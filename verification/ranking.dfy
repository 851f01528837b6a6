/**
  `sorted(agg.items(), key=lambda kv: kv[1]["orders"], reverse=True)`: the
  tally's entries ordered by order count, largest first. Python's sort is
  stable also with `reverse=True`, so entries with equal order counts keep the
  tally's insertion order.

  The model is an insertion sort. Its contract is the one the Python call
  promises: the result is a permutation of the input, non-increasing in order
  count, and for every count `k` the entries with count `k` appear in the same
  order as in the input. `StableSortUnique` shows that these three properties
  determine the result, so any stable descending sort returns `Rank`'s output.
 */
module Ranking {
  import opened Aggregation

  /** Non-increasing in order count. */
  predicate SortedDesc(s: seq<Entry>) {
    forall i, j :: 0 <= i < j < |s| ==> s[i].orderCount >= s[j].orderCount
  }

  /** The entries of `s` whose order count is `k`, in their order in `s`. */
  function WithCount(s: seq<Entry>, k: nat): seq<Entry>
    decreases |s|
  {
    if s == [] then []
    else (if s[0].orderCount == k then [s[0]] else []) + WithCount(s[1..], k)
  }

  /** `WithCount(s, k)` holds exactly the entries of `s` with count `k`. */
  lemma {:induction false} WithCountMembers(s: seq<Entry>, k: nat)
    ensures forall x :: x in WithCount(s, k) <==> x in s && x.orderCount == k
    decreases |s|
  {
    if s != [] {
      WithCountMembers(s[1..], k);
      assert s == [s[0]] + s[1..];
    }
  }

  /** Insert `e` into a sorted sequence, in front of every entry whose order
      count is not larger than its own. */
  function Insert(e: Entry, s: seq<Entry>): (r: seq<Entry>)
    requires SortedDesc(s)
    ensures SortedDesc(r)
    ensures multiset(r) == multiset(s) + multiset{e}
    ensures forall k :: WithCount(r, k) == (if e.orderCount == k then [e] else []) + WithCount(s, k)
    decreases |s|
  {
    if s == [] || s[0].orderCount <= e.orderCount then
      assert forall k :: WithCount([e] + s, k) == (if e.orderCount == k then [e] else []) + WithCount(s, k) by {
        forall k { WithCountConcat([e], s, k); }
      }
      [e] + s
    else
      var t := Insert(e, s[1..]);
      InsertHead(e, s, t);
      [s[0]] + t
  }

  /** The step of `Insert` that keeps `s[0]` in front. */
  lemma InsertHead(e: Entry, s: seq<Entry>, t: seq<Entry>)
    requires s != [] && SortedDesc(s) && s[0].orderCount > e.orderCount
    requires SortedDesc(t)
    requires multiset(t) == multiset(s[1..]) + multiset{e}
    requires forall k :: WithCount(t, k) == (if e.orderCount == k then [e] else []) + WithCount(s[1..], k)
    ensures SortedDesc([s[0]] + t)
    ensures multiset([s[0]] + t) == multiset(s) + multiset{e}
    ensures forall k :: WithCount([s[0]] + t, k) == (if e.orderCount == k then [e] else []) + WithCount(s, k)
  {
    assert s == [s[0]] + s[1..];
    InsertHeadSorted(e, s, t);
    forall k
      ensures WithCount([s[0]] + t, k) == (if e.orderCount == k then [e] else []) + WithCount(s, k)
    {
      WithCountConcat([s[0]], t, k);
      WithCountConcat([s[0]], s[1..], k);
    }
  }

  lemma InsertHeadSorted(e: Entry, s: seq<Entry>, t: seq<Entry>)
    requires s != [] && SortedDesc(s) && s[0].orderCount > e.orderCount
    requires SortedDesc(t)
    requires multiset(t) == multiset(s[1..]) + multiset{e}
    ensures SortedDesc([s[0]] + t)
  {
    forall x | x in t
      ensures x.orderCount <= s[0].orderCount
    {
      assert x in multiset(t);
      if x != e {
        assert x in multiset(s[1..]);
        assert x in s[1..];
      }
    }
    var r := [s[0]] + t;
    forall i, j | 0 <= i < j < |r|
      ensures r[i].orderCount >= r[j].orderCount
    {
      if i == 0 {
        assert r[j] == t[j - 1];
        assert r[j] in t;
      } else {
        assert r[i] == t[i - 1] && r[j] == t[j - 1];
      }
    }
  }

  lemma {:induction false} WithCountConcat(a: seq<Entry>, b: seq<Entry>, k: nat)
    ensures WithCount(a + b, k) == WithCount(a, k) + WithCount(b, k)
    decreases |a|
  {
    if a != [] {
      WithCountConcat(a[1..], b, k);
      assert (a + b)[1..] == a[1..] + b;
      assert (a + b)[0] == a[0];
    } else {
      assert a + b == b;
    }
  }

  /** The ranked list of a tally. */
  function Rank(s: seq<Entry>): (r: seq<Entry>)
    ensures SortedDesc(r)
    ensures multiset(r) == multiset(s)
    ensures forall k :: WithCount(r, k) == WithCount(s, k)
    decreases |s|
  {
    if s == [] then []
    else
      assert s == [s[0]] + s[1..];
      Insert(s[0], Rank(s[1..]))
  }

  /** The ranked list has the tally's length and the tally's entries. */
  lemma RankSize(s: seq<Entry>)
    ensures |Rank(s)| == |s|
    ensures forall x :: x in Rank(s) <==> x in s
  {
    var r := Rank(s);
    assert |multiset(r)| == |multiset(s)|;
    forall x
      ensures x in r <==> x in s
    {
      assert x in r <==> x in multiset(r);
      assert x in s <==> x in multiset(s);
    }
  }

  lemma WithCountNonEmpty(s: seq<Entry>, i: nat)
    requires i < |s|
    ensures WithCount(s, s[i].orderCount) != []
  {
    WithCountMembers(s, s[i].orderCount);
    assert s[i] in WithCount(s, s[i].orderCount);
  }

  /** Two sorted sequences with the same entries per order count, in the
      same order, are equal. */
  lemma {:induction false} SortedEqual(a: seq<Entry>, b: seq<Entry>)
    requires SortedDesc(a) && SortedDesc(b)
    requires forall k :: WithCount(a, k) == WithCount(b, k)
    ensures a == b
    decreases |a|
  {
    if a == [] {
      if b != [] {
        WithCountNonEmpty(b, 0);
        assert false;
      }
    } else {
      WithCountNonEmpty(a, 0);
      var m := a[0].orderCount;
      WithCountMembers(b, m);
      assert b != [];
      SameHead(a, b);
      forall k
        ensures WithCount(a[1..], k) == WithCount(b[1..], k)
      {
        SameTail(a, b, k);
      }
      SortedEqual(a[1..], b[1..]);
      assert a == [a[0]] + a[1..] && b == [b[0]] + b[1..];
    }
  }

  /** The first entry of a sorted sequence is the first with its count. */
  lemma HeadWithCount(a: seq<Entry>)
    requires a != [] && SortedDesc(a)
    ensures forall x :: x in a ==> x.orderCount <= a[0].orderCount
    ensures WithCount(a, a[0].orderCount) == [a[0]] + WithCount(a[1..], a[0].orderCount)
  {
  }

  lemma SameHead(a: seq<Entry>, b: seq<Entry>)
    requires a != [] && b != [] && SortedDesc(a) && SortedDesc(b)
    requires forall k :: WithCount(a, k) == WithCount(b, k)
    ensures a[0] == b[0]
  {
    HeadWithCount(a);
    HeadWithCount(b);
    var m, n := a[0].orderCount, b[0].orderCount;
    WithCountMembers(a, n);
    WithCountMembers(b, m);
    assert a[0] in WithCount(b, m);
    assert b[0] in WithCount(a, n);
    assert m == n;
    assert WithCount(a, m)[0] == a[0];
  }

  lemma SameTail(a: seq<Entry>, b: seq<Entry>, k: nat)
    requires a != [] && b != [] && a[0] == b[0]
    requires WithCount(a, k) == WithCount(b, k)
    ensures WithCount(a[1..], k) == WithCount(b[1..], k)
  {
    var h := if a[0].orderCount == k then [a[0]] else [];
    var x, y := WithCount(a[1..], k), WithCount(b[1..], k);
    assert WithCount(a, k) == h + x;
    assert WithCount(b, k) == h + y;
    assert x == (h + x)[|h|..];
    assert y == (h + y)[|h|..];
  }

  /** Any order that is non-increasing in order count and keeps the input
      order among equal counts is `Rank`'s: the stable descending sort is
      unique. */
  lemma StableSortUnique(s: seq<Entry>, r: seq<Entry>)
    requires SortedDesc(r)
    requires forall k :: WithCount(r, k) == WithCount(s, k)
    ensures r == Rank(s)
  {
    SortedEqual(r, Rank(s));
  }

  lemma {:induction false} InsertKeepsDistinct(e: Entry, s: seq<Entry>)
    requires SortedDesc(s) && Distinct(Articles(s))
    requires forall x :: x in s ==> x.article != e.article
    ensures Distinct(Articles(Insert(e, s)))
    decreases |s|
  {
    if s == [] || s[0].orderCount <= e.orderCount {
      ConsDistinct(e, s);
    } else {
      var t := Insert(e, s[1..]);
      InsertKeepsDistinct(e, s[1..]);
      forall x | x in t
        ensures x.article != s[0].article
      {
        assert x in multiset(t);
        if x != e {
          assert x in multiset(s[1..]);
          var j :| 1 <= j < |s| && s[j] == x;
        }
      }
      ConsDistinct(s[0], t);
    }
  }

  /** An entry whose article is new keeps a sequence's articles distinct. */
  lemma ConsDistinct(h: Entry, t: seq<Entry>)
    requires Distinct(Articles(t))
    requires forall x :: x in t ==> x.article != h.article
    ensures Distinct(Articles([h] + t))
  {
    var r := [h] + t;
    var ks, kt := Articles(r), Articles(t);
    forall i, j | 0 <= i < j < |r|
      ensures ks[i] != ks[j]
    {
      if i == 0 {
        assert r[j] == t[j - 1];
      } else {
        assert ks[i] == kt[i - 1] && ks[j] == kt[j - 1];
      }
    }
  }

  /** Ranking keeps the articles of a tally distinct. */
  lemma {:induction false} RankDistinct(s: seq<Entry>)
    requires Distinct(Articles(s))
    ensures Distinct(Articles(Rank(s)))
    decreases |s|
  {
    if s != [] {
      var t := Rank(s[1..]);
      RankDistinct(s[1..]);
      RankSize(s[1..]);
      forall x | x in t
        ensures x.article != s[0].article
      {
        var j :| 0 <= j < |s[1..]| && s[1..][j] == x;
        assert s[j + 1] == x;
      }
      InsertKeepsDistinct(s[0], t);
    }
  }

  const MaxShown: nat := 40

  /** `items[:40]`: the first (up to) forty ranked entries. */
  function Top(ranked: seq<Entry>): (t: seq<Entry>)
    ensures |t| == if |ranked| < MaxShown then |ranked| else MaxShown
    ensures t == ranked[..|t|]
  {
    if |ranked| < MaxShown then ranked else ranked[..MaxShown]
  }

  /** What the cut leaves out never outranks what it keeps. */
  lemma TopDominates(ranked: seq<Entry>)
    requires SortedDesc(ranked)
    ensures forall i, j :: 0 <= i < |Top(ranked)| <= j < |ranked| ==>
      ranked[i].orderCount >= ranked[j].orderCount
  {
  }
}
