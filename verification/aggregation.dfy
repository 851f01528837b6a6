/**
  The per-article tally built by the report: an insertion-ordered dictionary
  from article key to `{"orders", "returns"}`, filled first from the order
  feed and then from the sale feed.

  The dictionary is modelled as an association list of entries; Python's dict
  keeps insertion order, and so does the list. The reference definitions the
  tally is compared with are plain counts over the input rows (`CountOrders`,
  `CountReturns`) and the first-occurrence order of the keys (`Dedup`).
 */
module Aggregation {
  import opened Strings
  import opened Rows

  datatype Entry = Entry(article: string, orderCount: nat, returnCount: nat)

  /** The keys of a tally, in insertion order. */
  function Articles(agg: seq<Entry>): (ks: seq<string>)
    ensures |ks| == |agg|
    ensures forall i :: 0 <= i < |agg| ==> ks[i] == agg[i].article
  {
    seq(|agg|, i requires 0 <= i < |agg| => agg[i].article)
  }

  /** Position of the first entry for `a`, or -1 when there is none. */
  function IndexOf(agg: seq<Entry>, a: string): (i: int)
    ensures -1 <= i < |agg|
    ensures i >= 0 ==> agg[i].article == a
    ensures forall j :: 0 <= j < |agg| && (i < 0 || j < i) ==> agg[j].article != a
    decreases |agg|
  {
    if agg == [] then -1
    else if agg[0].article == a then 0
    else
      var k := IndexOf(agg[1..], a);
      if k < 0 then -1 else k + 1
  }

  /** `IndexOf` is determined by its contract: the first position holding
      `a`, or -1. */
  lemma IndexOfIs(agg: seq<Entry>, a: string, i: int)
    requires -1 <= i < |agg|
    requires i >= 0 ==> agg[i].article == a
    requires forall j :: 0 <= j < |agg| && (i < 0 || j < i) ==> agg[j].article != a
    ensures IndexOf(agg, a) == i
  {
  }

  /** `agg[a]["orders"]`, reading a missing key as 0. */
  function OrdersOf(agg: seq<Entry>, a: string): nat {
    var i := IndexOf(agg, a);
    if i < 0 then 0 else agg[i].orderCount
  }

  /** `agg[a]["returns"]`, reading a missing key as 0. */
  function ReturnsOf(agg: seq<Entry>, a: string): nat {
    var i := IndexOf(agg, a);
    if i < 0 then 0 else agg[i].returnCount
  }

  /** In a tally whose keys are distinct, each entry holds the counters its
      key reads. */
  lemma EntryCounters(agg: seq<Entry>, i: nat)
    requires Distinct(Articles(agg)) && i < |agg|
    ensures OrdersOf(agg, agg[i].article) == agg[i].orderCount
    ensures ReturnsOf(agg, agg[i].article) == agg[i].returnCount
  {
    var ks := Articles(agg);
    assert forall j :: 0 <= j < |agg| && j != i ==> ks[j] != ks[i];
  }

  // ---------------------------------------------------------------------
  // Reference definitions over key sequences

  /** Number of occurrences of `a` in `ks`. */
  function Occ(ks: seq<string>, a: string): nat
    decreases |ks|
  {
    if ks == [] then 0
    else Occ(ks[..|ks| - 1], a) + (if ks[|ks| - 1] == a then 1 else 0)
  }

  predicate Distinct<T(==)>(s: seq<T>) {
    forall i, j :: 0 <= i < j < |s| ==> s[i] != s[j]
  }

  /** A duplicate-free sequence has as many elements as the set it lists. */
  lemma {:induction false} DistinctCard(xs: seq<string>, keys: set<string>)
    requires Distinct(xs)
    requires forall a :: a in xs <==> a in keys
    ensures |keys| == |xs|
    decreases |xs|
  {
    if xs != [] {
      var p := xs[..|xs| - 1];
      var last := xs[|xs| - 1];
      assert xs == p + [last];
      assert last !in p;
      DistinctCard(p, keys - {last});
    } else {
      assert keys == {};
    }
  }

  /** Record `a` as seen, unless it already was. */
  function AppendNew(ks: seq<string>, a: string): seq<string> {
    if a in ks then ks else ks + [a]
  }

  /** The keys `ks` already holds, followed by the new keys of `xs` in order
      of first occurrence. */
  function Extend(ks: seq<string>, xs: seq<string>): (r: seq<string>)
    ensures Distinct(ks) ==> Distinct(r)
    ensures forall a :: a in r <==> a in ks || a in xs
    decreases |xs|
  {
    if xs == [] then ks
    else
      var prefix := xs[..|xs| - 1];
      assert xs == prefix + [xs[|xs| - 1]];
      AppendNew(Extend(ks, prefix), xs[|xs| - 1])
  }

  /** The distinct elements of `xs` in order of first occurrence. */
  function Dedup(xs: seq<string>): seq<string> {
    Extend([], xs)
  }

  /** Position of the first `a` in `xs`, read from the front; `|xs|` when
      there is none. */
  function FirstIndex(xs: seq<string>, a: string): (n: nat)
    ensures n <= |xs|
    ensures n < |xs| ==> xs[n] == a
    ensures forall k :: 0 <= k < n ==> xs[k] != a
    decreases |xs|
  {
    if xs == [] then 0
    else if xs[0] == a then 0
    else 1 + FirstIndex(xs[1..], a)
  }

  /** Appending an element does not move the first occurrence of an element
      already present, and puts that of a new one at the end. */
  lemma FirstIndexAppend(p: seq<string>, x: string, a: string)
    ensures a in p ==> FirstIndex(p + [x], a) == FirstIndex(p, a)
    ensures a !in p ==> FirstIndex(p + [x], a) >= |p|
  {
    var xs := p + [x];
    var n := FirstIndex(xs, a);
    if a in p {
      var m := FirstIndex(p, a);
      assert xs[m] == a;
      assert n <= m;
      assert n < |p| ==> p[n] == a;
    } else {
      assert forall k :: 0 <= k < |p| ==> xs[k] != a;
    }
  }

  /** `Dedup` lists the distinct elements in the order of their first
      occurrence, measured independently of the fold that builds it. */
  lemma {:induction false} DedupFirstOrder(xs: seq<string>)
    ensures forall a :: a in Dedup(xs) <==> a in xs
    ensures forall i, j :: 0 <= i < j < |Dedup(xs)| ==>
      FirstIndex(xs, Dedup(xs)[i]) < FirstIndex(xs, Dedup(xs)[j])
    decreases |xs|
  {
    var d := Dedup(xs);
    if xs != [] {
      var p := xs[..|xs| - 1];
      var x := xs[|xs| - 1];
      assert xs == p + [x];
      DedupFirstOrder(p);
      var dp := Dedup(p);
      assert d == AppendNew(dp, x);
      forall a | a in dp
        ensures FirstIndex(xs, a) == FirstIndex(p, a)
      {
        FirstIndexAppend(p, x, a);
      }
      if x !in dp {
        FirstIndexAppend(p, x, x);
        forall i, j | 0 <= i < j < |d|
          ensures FirstIndex(xs, d[i]) < FirstIndex(xs, d[j])
        {
          assert d[i] == dp[i];
          if j < |dp| {
            assert d[j] == dp[j];
          } else {
            assert d[j] == x;
          }
        }
      }
    }
  }

  lemma {:induction false} ExtendConcat(ks: seq<string>, xs: seq<string>, ys: seq<string>)
    ensures Extend(Extend(ks, xs), ys) == Extend(ks, xs + ys)
    decreases |ys|
  {
    if ys == [] {
      assert xs + ys == xs;
    } else {
      var p := ys[..|ys| - 1];
      ExtendConcat(ks, xs, p);
      assert (xs + ys)[..|xs + ys| - 1] == xs + p;
    }
  }

  // ---------------------------------------------------------------------
  // Row keys and counts

  /** The article keys of a sequence of order rows, row by row. */
  function OrderKeys(orders: seq<OrderRow>): (ks: seq<string>)
    ensures |ks| == |orders|
    decreases |orders|
  {
    if orders == [] then []
    else OrderKeys(orders[..|orders| - 1]) + [ArticleKey(orders[|orders| - 1].supplierArticle)]
  }

  /** The article keys of a sequence of sale rows, row by row. */
  function SaleKeys(sales: seq<SaleRow>): (ks: seq<string>)
    ensures |ks| == |sales|
    decreases |sales|
  {
    if sales == [] then []
    else SaleKeys(sales[..|sales| - 1]) + [ArticleKey(sales[|sales| - 1].supplierArticle)]
  }

  /** How many order rows of the raw feed are not cancelled and have key `a`. */
  function CountOrders(raw: seq<OrderRow>, a: string): nat
    decreases |raw|
  {
    if raw == [] then 0
    else
      var o := raw[|raw| - 1];
      CountOrders(raw[..|raw| - 1], a)
        + (if !IsCancelled(o) && ArticleKey(o.supplierArticle) == a then 1 else 0)
  }

  /** How many sale rows have key `a` and are classified as returns. */
  function CountReturns(sales: seq<SaleRow>, a: string): nat
    decreases |sales|
  {
    if sales == [] then 0
    else
      var s := sales[|sales| - 1];
      CountReturns(sales[..|sales| - 1], a)
        + (if IsReturn(s) && ArticleKey(s.supplierArticle) == a then 1 else 0)
  }

  /** The keys a day contributes: those of its non-cancelled orders and of all
      its sales. */
  function DayKeys(raw: seq<OrderRow>, sales: seq<SaleRow>): set<string> {
    (set o | o in raw && !IsCancelled(o) :: ArticleKey(o.supplierArticle))
      + (set s | s in sales :: ArticleKey(s.supplierArticle))
  }

  // ---------------------------------------------------------------------
  // One step of the two loops

  /** `agg.setdefault(a, {"orders": 0, "returns": 0})`: adds a zeroed entry at
      the end when `a` is new; no counter changes. */
  function SetDefault(agg: seq<Entry>, a: string): (r: seq<Entry>)
    ensures IndexOf(r, a) >= 0
    ensures Articles(r) == AppendNew(Articles(agg), a)
    ensures forall b :: OrdersOf(r, b) == OrdersOf(agg, b) && ReturnsOf(r, b) == ReturnsOf(agg, b)
  {
    if IndexOf(agg, a) >= 0 then
      assert a in Articles(agg);
      agg
    else
      var r := agg + [Entry(a, 0, 0)];
      assert a !in Articles(agg);
      assert Articles(r) == Articles(agg) + [a];
      IndexOfIs(r, a, |agg|);
      forall b | b != a
        ensures IndexOf(r, b) == IndexOf(agg, b)
      {
        IndexOfIs(r, b, IndexOf(agg, b));
      }
      r
  }

  /** Replacing an entry by one with the same article changes the counters of
      that article only. */
  lemma ReplaceEntry(agg: seq<Entry>, i: nat, e: Entry)
    requires i < |agg| && IndexOf(agg, e.article) == i
    ensures Articles(agg[i := e]) == Articles(agg)
    ensures OrdersOf(agg[i := e], e.article) == e.orderCount
    ensures ReturnsOf(agg[i := e], e.article) == e.returnCount
    ensures forall b :: b != e.article ==>
      OrdersOf(agg[i := e], b) == OrdersOf(agg, b) && ReturnsOf(agg[i := e], b) == ReturnsOf(agg, b)
  {
    var r := agg[i := e];
    assert Articles(r) == Articles(agg);
    IndexOfIs(r, e.article, i);
    forall b | b != e.article
      ensures IndexOf(r, b) == IndexOf(agg, b)
    {
      IndexOfIs(r, b, IndexOf(agg, b));
    }
  }

  /** The body of the order loop: `setdefault`, then `orders += 1`. */
  function AddOrder(agg: seq<Entry>, a: string): (r: seq<Entry>)
    ensures Articles(r) == AppendNew(Articles(agg), a)
    ensures OrdersOf(r, a) == OrdersOf(agg, a) + 1
    ensures forall b :: b != a ==> OrdersOf(r, b) == OrdersOf(agg, b)
    ensures forall b :: ReturnsOf(r, b) == ReturnsOf(agg, b)
  {
    var g := SetDefault(agg, a);
    var i := IndexOf(g, a);
    var e := g[i].(orderCount := g[i].orderCount + 1);
    ReplaceEntry(g, i, e);
    g[i := e]
  }

  /** The body of the sale loop: `setdefault`, then `returns += 1` when the row
      is a return. */
  function AddSale(agg: seq<Entry>, a: string, isReturn: bool): (r: seq<Entry>)
    ensures Articles(r) == AppendNew(Articles(agg), a)
    ensures forall b :: OrdersOf(r, b) == OrdersOf(agg, b)
    ensures ReturnsOf(r, a) == ReturnsOf(agg, a) + (if isReturn then 1 else 0)
    ensures forall b :: b != a ==> ReturnsOf(r, b) == ReturnsOf(agg, b)
  {
    var g := SetDefault(agg, a);
    if isReturn then
      var i := IndexOf(g, a);
      var e := g[i].(returnCount := g[i].returnCount + 1);
      ReplaceEntry(g, i, e);
      g[i := e]
    else g
  }

  // ---------------------------------------------------------------------
  // The two loops and the whole tally

  /** `for o in orders: ...` over the (already filtered) order feed. */
  function AddOrders(agg: seq<Entry>, orders: seq<OrderRow>): seq<Entry>
    decreases |orders|
  {
    if orders == [] then agg
    else AddOrder(AddOrders(agg, orders[..|orders| - 1]), ArticleKey(orders[|orders| - 1].supplierArticle))
  }

  /** `for s in sales: ...`. */
  function AddSales(agg: seq<Entry>, sales: seq<SaleRow>): seq<Entry>
    decreases |sales|
  {
    if sales == [] then agg
    else
      var s := sales[|sales| - 1];
      AddSale(AddSales(agg, sales[..|sales| - 1]), ArticleKey(s.supplierArticle), IsReturn(s))
  }

  /** The tally of one day, from the filtered order feed and the sale feed. */
  function Aggregate(orders: seq<OrderRow>, sales: seq<SaleRow>): seq<Entry> {
    AddSales(AddOrders([], orders), sales)
  }

  /** The order loop adds one per row to its key's order count, leaves return
      counts alone, and appends the new keys in order of first occurrence. */
  lemma AddOrdersSpec(agg: seq<Entry>, orders: seq<OrderRow>)
    ensures Articles(AddOrders(agg, orders)) == Extend(Articles(agg), OrderKeys(orders))
    ensures forall a :: OrdersOf(AddOrders(agg, orders), a) == OrdersOf(agg, a) + Occ(OrderKeys(orders), a)
    ensures forall a :: ReturnsOf(AddOrders(agg, orders), a) == ReturnsOf(agg, a)
  {
    AddOrdersKeys(agg, orders);
    forall a
      ensures OrdersOf(AddOrders(agg, orders), a) == OrdersOf(agg, a) + Occ(OrderKeys(orders), a)
      ensures ReturnsOf(AddOrders(agg, orders), a) == ReturnsOf(agg, a)
    {
      AddOrdersCounts(agg, orders, a);
    }
  }

  lemma {:induction false} AddOrdersKeys(agg: seq<Entry>, orders: seq<OrderRow>)
    ensures Articles(AddOrders(agg, orders)) == Extend(Articles(agg), OrderKeys(orders))
    decreases |orders|
  {
    if orders != [] {
      var p := orders[..|orders| - 1];
      AddOrdersKeys(agg, p);
      var ks := OrderKeys(orders);
      assert ks[..|ks| - 1] == OrderKeys(p);
    }
  }

  lemma {:induction false} AddOrdersCounts(agg: seq<Entry>, orders: seq<OrderRow>, a: string)
    ensures OrdersOf(AddOrders(agg, orders), a) == OrdersOf(agg, a) + Occ(OrderKeys(orders), a)
    ensures ReturnsOf(AddOrders(agg, orders), a) == ReturnsOf(agg, a)
    decreases |orders|
  {
    if orders != [] {
      var p := orders[..|orders| - 1];
      AddOrdersCounts(agg, p, a);
      var k := ArticleKey(orders[|orders| - 1].supplierArticle);
      OccStep(OrderKeys(orders), OrderKeys(p), k, a);
    }
  }

  /** `Occ` of a sequence with one more key. */
  lemma OccStep(ks: seq<string>, p: seq<string>, k: string, a: string)
    requires ks == p + [k]
    ensures Occ(ks, a) == Occ(p, a) + (if k == a then 1 else 0)
  {
    assert ks[..|ks| - 1] == p;
  }

  /** The sale loop never changes an order count, adds one per return row to
      its key's return count, and appends the new keys in order of first
      occurrence. */
  lemma {:induction false} AddSalesSpec(agg: seq<Entry>, sales: seq<SaleRow>)
    ensures Articles(AddSales(agg, sales)) == Extend(Articles(agg), SaleKeys(sales))
    ensures forall a :: OrdersOf(AddSales(agg, sales), a) == OrdersOf(agg, a)
    ensures forall a :: ReturnsOf(AddSales(agg, sales), a) == ReturnsOf(agg, a) + CountReturns(sales, a)
    decreases |sales|
  {
    if sales != [] {
      var p := sales[..|sales| - 1];
      AddSalesSpec(agg, p);
      var ks := SaleKeys(sales);
      assert ks[..|ks| - 1] == SaleKeys(p);
    }
  }

  /** Counting the filtered feed row by row gives the non-cancelled count of
      the raw feed, and the filtered feed has the raw feed's non-cancelled
      keys. */
  lemma {:induction false} DayOrdersCount(raw: seq<OrderRow>, a: string)
    ensures Occ(OrderKeys(DayOrders(raw)), a) == CountOrders(raw, a)
    decreases |raw|
  {
    if raw != [] {
      var p := raw[..|raw| - 1];
      DayOrdersCount(p, a);
      var last := raw[|raw| - 1];
      var k := ArticleKey(last.supplierArticle);
      assert CountOrders(raw, a) == CountOrders(p, a) + (if !IsCancelled(last) && k == a then 1 else 0);
      if !IsCancelled(last) {
        var d := DayOrders(p) + [last];
        assert DayOrders(raw) == d;
        assert d[..|d| - 1] == DayOrders(p);
        assert OrderKeys(d) == OrderKeys(DayOrders(p)) + [k];
        OccStep(OrderKeys(d), OrderKeys(DayOrders(p)), k, a);
      } else {
        assert DayOrders(raw) == DayOrders(p);
      }
    }
  }

  lemma {:induction false} OrderKeysMembers(orders: seq<OrderRow>)
    ensures forall a :: a in OrderKeys(orders) <==> exists o :: o in orders && ArticleKey(o.supplierArticle) == a
    decreases |orders|
  {
    if orders != [] {
      var p := orders[..|orders| - 1];
      OrderKeysMembers(p);
      assert orders == p + [orders[|orders| - 1]];
    }
  }

  lemma {:induction false} SaleKeysMembers(sales: seq<SaleRow>)
    ensures forall a :: a in SaleKeys(sales) <==> exists s :: s in sales && ArticleKey(s.supplierArticle) == a
    decreases |sales|
  {
    if sales != [] {
      var p := sales[..|sales| - 1];
      SaleKeysMembers(p);
      assert sales == p + [sales[|sales| - 1]];
    }
  }

  /** The keys of a day's tally are the day's keys, each exactly once, in
      insertion order: order feed first, then sale feed. */
  lemma DayTallyKeys(raw: seq<OrderRow>, sales: seq<SaleRow>)
    ensures var agg := Aggregate(DayOrders(raw), sales);
      && Articles(agg) == Dedup(OrderKeys(DayOrders(raw)) + SaleKeys(sales))
      && Distinct(Articles(agg))
      && (forall a :: a in Articles(agg) <==> a in DayKeys(raw, sales))
  {
    var orders := DayOrders(raw);
    var ks := OrderKeys(orders) + SaleKeys(sales);
    TallyArticles(orders, sales);
    assert Distinct<string>([]);
    KeysMembers(raw, sales, ks);
  }

  /** The keys of the tally of two feeds, in first-occurrence order. */
  lemma TallyArticles(orders: seq<OrderRow>, sales: seq<SaleRow>)
    ensures Articles(Aggregate(orders, sales)) == Dedup(OrderKeys(orders) + SaleKeys(sales))
  {
    AddOrdersKeys([], orders);
    AddSalesSpec(AddOrders([], orders), sales);
    ExtendConcat([], OrderKeys(orders), SaleKeys(sales));
  }

  /** The row keys of a day's two feeds are its keys. */
  lemma KeysMembers(raw: seq<OrderRow>, sales: seq<SaleRow>, ks: seq<string>)
    requires ks == OrderKeys(DayOrders(raw)) + SaleKeys(sales)
    ensures forall a :: a in ks <==> a in DayKeys(raw, sales)
  {
    OrderKeysMembers(DayOrders(raw));
    SaleKeysMembers(sales);
  }

  /** The counters of a day's tally: the order count of every key is the
      number of non-cancelled order rows with that key (so a cancelled row
      counts for nothing and a sale row changes no order count), and the return
      count is the number of its return rows. A key that never occurs reads 0
      on both. */
  lemma DayTallyCounts(raw: seq<OrderRow>, sales: seq<SaleRow>)
    ensures var agg := Aggregate(DayOrders(raw), sales);
      && (forall a :: OrdersOf(agg, a) == CountOrders(raw, a))
      && (forall a :: ReturnsOf(agg, a) == CountReturns(sales, a))
  {
    var orders := DayOrders(raw);
    var mid := AddOrders([], orders);
    AddSalesSpec(mid, sales);
    forall a
      ensures OrdersOf(mid, a) == CountOrders(raw, a)
      ensures ReturnsOf(mid, a) == 0
    {
      AddOrdersCounts([], orders, a);
      DayOrdersCount(raw, a);
    }
  }

  /** The keys of a day lie within any set that holds the key of every
      non-cancelled order row and of every sale row. */
  lemma DayKeysWithin(raw: seq<OrderRow>, sales: seq<SaleRow>, keys: set<string>)
    requires forall o :: o in raw && !IsCancelled(o) ==> ArticleKey(o.supplierArticle) in keys
    requires forall s :: s in sales ==> ArticleKey(s.supplierArticle) in keys
    ensures DayKeys(raw, sales) <= keys
  {
  }

  /** A day has no keys exactly when it has no sale rows and every order row
      is cancelled. */
  lemma DayKeysEmpty(raw: seq<OrderRow>, sales: seq<SaleRow>)
    ensures DayKeys(raw, sales) == {} <==> sales == [] && forall o :: o in raw ==> IsCancelled(o)
  {
    if sales != [] {
      assert ArticleKey(sales[0].supplierArticle) in DayKeys(raw, sales);
    }
    if o :| o in raw && !IsCancelled(o) {
      assert ArticleKey(o.supplierArticle) in DayKeys(raw, sales);
    }
  }

  /** The tally of a day is empty exactly when the day has no keys. */
  lemma TallyEmpty(raw: seq<OrderRow>, sales: seq<SaleRow>)
    ensures Aggregate(DayOrders(raw), sales) == [] <==> DayKeys(raw, sales) == {}
  {
    var agg := Aggregate(DayOrders(raw), sales);
    DayTallyKeys(raw, sales);
    if agg != [] {
      assert Articles(agg)[0] in DayKeys(raw, sales);
    } else {
      assert Articles(agg) == [];
    }
  }
}
