/**
  The daily report: the ranked tally turned into message lines. The message is
  modelled as a list of abstract lines rather than the HTML text the bot
  sends: a header for the day, a blank line, and then either the "no data"
  line or one item per shown article carrying its badge, article, order count,
  return count and buyout ratio.
 */
module Report {
  import opened Rows
  import opened Aggregation
  import opened Ranking

  /** The calendar day a report is for; it only appears in the header. */
  datatype Date = Date(year: int, month: nat, day: nat)

  /** The status mark in front of an article: red, yellow or green circle. */
  datatype Badge = Red | Yellow | Green

  datatype Line =
    | Header(date: Date)
    | Blank
    | NoData
    | Item(badge: Badge, article: string, ordered: nat, returned: nat, buyout: real)

  /** The buyout ratio `(o - r) / o`, or 0 when nothing was ordered. It is the
      share of orders not returned; it is not clamped, so it goes negative when
      there are more returns than orders. */
  function Buyout(o: nat, r: nat): (q: real)
    ensures o == 0 ==> q == 0.0
    ensures o > 0 ==> q * (o as real) == (o - r) as real
    ensures q <= 1.0
    ensures q < 0.0 <==> o > 0 && r > o
    ensures q == 1.0 <==> o > 0 && r == 0
  {
    if o > 0 then
      var q := (o - r) as real / o as real;
      BuyoutBounds(o, r, q);
      q
    else 0.0
  }

  lemma BuyoutBounds(o: nat, r: nat, q: real)
    requires o > 0 && q * (o as real) == (o - r) as real
    ensures q <= 1.0
    ensures q < 0.0 <==> r > o
    ensures q == 1.0 <==> r == 0
  {
    var n := o as real;
    ScaledCompare(q, n, 0.0);
    ScaledCompare(q, n, 1.0);
  }

  /** `badge(buyout)`: red below 22%, yellow from 22% up to but not including
      30%, green from 30% on. */
  function BadgeFor(q: real): (b: Badge)
    ensures b == Red <==> q < 0.22
    ensures b == Yellow <==> 0.22 <= q < 0.30
    ensures b == Green <==> 0.30 <= q
  {
    if q < 0.22 then Red
    else if q < 0.30 then Yellow
    else Green
  }

  /** Red < Yellow < Green. */
  function Level(b: Badge): nat {
    match b
    case Red => 0
    case Yellow => 1
    case Green => 2
  }

  /** A better ratio never gets a worse badge. */
  lemma BadgeMonotone(p: real, q: real)
    requires p <= q
    ensures Level(BadgeFor(p)) <= Level(BadgeFor(q))
  {
  }

  /** The badge of an article in integers: with `o` orders and `r` returns it
      is red when nothing was ordered or when fewer than 22 in 100 orders were
      kept, green when at least 30 in 100 were, and yellow in between. */
  lemma BadgeFromCounts(o: nat, r: nat)
    ensures BadgeFor(Buyout(o, r)) ==
      if o == 0 || 100 * (o - r) < 22 * o then Red
      else if 100 * (o - r) < 30 * o then Yellow
      else Green
  {
    if o > 0 {
      var q := Buyout(o, r);
      Below22(o, o - r, q);
      Below30(o, o - r, q);
    }
  }

  lemma Below22(o: nat, d: int, q: real)
    requires o > 0 && q * (o as real) == d as real
    ensures q < 0.22 <==> 100 * d < 22 * o
  {
    ScaledCompare(q, o as real, 0.22);
  }

  lemma Below30(o: nat, d: int, q: real)
    requires o > 0 && q * (o as real) == d as real
    ensures q < 0.30 <==> 100 * d < 30 * o
  {
    ScaledCompare(q, o as real, 0.30);
  }

  /** Comparing a ratio with a threshold is comparing both scaled by a
      positive amount. */
  lemma ScaledCompare(q: real, n: real, t: real)
    requires n > 0.0
    ensures q < t <==> q * n < t * n
    ensures q == t <==> q * n == t * n
  {
    if q < t {
      assert (t - q) * n > 0.0;
    } else if q > t {
      assert (q - t) * n > 0.0;
    }
  }

  /** The block printed for one ranked entry. */
  function ItemLine(e: Entry): Line {
    var q := Buyout(e.orderCount, e.returnCount);
    Item(BadgeFor(q), e.article, e.orderCount, e.returnCount, q)
  }

  /** The message for a ranked tally: header and blank line, then the "no
      data" line when the tally is empty, else one item per entry of the
      first forty. */
  function Render(date: Date, ranked: seq<Entry>): (lines: seq<Line>)
    ensures |lines| >= 3 && lines[..2] == [Header(date), Blank]
    ensures ranked == [] <==> lines == [Header(date), Blank, NoData]
    ensures ranked != [] ==> |lines| == 2 + |Top(ranked)|
    ensures forall i :: 2 <= i < |lines| && ranked != [] ==> lines[i] == ItemLine(ranked[i - 2])
  {
    if ranked == [] then [Header(date), Blank, NoData]
    else
      var shown := Top(ranked);
      var lines := [Header(date), Blank] + seq(|shown|, i requires 0 <= i < |shown| => ItemLine(shown[i]));
      assert lines[2] == ItemLine(shown[0]);
      lines
  }

  /** `build_report_text` with the two feeds passed in: filter the order feed,
      tally, rank, render. */
  function BuildReport(date: Date, raw: seq<OrderRow>, sales: seq<SaleRow>): seq<Line> {
    Render(date, Ranked(raw, sales))
  }

  /** The day's tally in report order. */
  function Ranked(raw: seq<OrderRow>, sales: seq<SaleRow>): seq<Entry> {
    Rank(Aggregate(DayOrders(raw), sales))
  }

  /** The report says "no data" exactly when the day has no sale rows and
      every order row is cancelled (in particular when both feeds are empty). */
  lemma NoDataExactly(date: Date, raw: seq<OrderRow>, sales: seq<SaleRow>)
    ensures BuildReport(date, raw, sales) == [Header(date), Blank, NoData] <==>
      sales == [] && forall o :: o in raw ==> IsCancelled(o)
  {
    var agg := Aggregate(DayOrders(raw), sales);
    DayKeysEmpty(raw, sales);
    TallyEmpty(raw, sales);
    RankSize(agg);
  }

  /** Every entry of the ranked tally carries its article's true counts and a
      key of the day, and no article appears twice. */
  lemma RankedEntries(raw: seq<OrderRow>, sales: seq<SaleRow>)
    ensures var ranked := Ranked(raw, sales);
      && SortedDesc(ranked)
      && Distinct(Articles(ranked))
      && |ranked| == |DayKeys(raw, sales)|
      && forall i :: 0 <= i < |ranked| ==>
        && ranked[i].article in DayKeys(raw, sales)
        && ranked[i].orderCount == CountOrders(raw, ranked[i].article)
        && ranked[i].returnCount == CountReturns(sales, ranked[i].article)
  {
    var agg := Aggregate(DayOrders(raw), sales);
    TallyShape(raw, sales);
    RankSize(agg);
    RankDistinct(agg);
    DayTallyKeys(raw, sales);
    DayTallyCounts(raw, sales);
    RankedCounts(raw, sales, agg, Rank(agg));
  }

  lemma TallyShape(raw: seq<OrderRow>, sales: seq<SaleRow>)
    ensures var agg := Aggregate(DayOrders(raw), sales);
      && Distinct(Articles(agg))
      && |agg| == |DayKeys(raw, sales)|
  {
    var agg := Aggregate(DayOrders(raw), sales);
    DayTallyKeys(raw, sales);
    DistinctCard(Articles(agg), DayKeys(raw, sales));
  }

  lemma RankedCounts(raw: seq<OrderRow>, sales: seq<SaleRow>, agg: seq<Entry>, ranked: seq<Entry>)
    requires Distinct(Articles(agg))
    requires forall a :: a in Articles(agg) <==> a in DayKeys(raw, sales)
    requires forall a :: OrdersOf(agg, a) == CountOrders(raw, a)
    requires forall a :: ReturnsOf(agg, a) == CountReturns(sales, a)
    requires forall x :: x in ranked ==> x in agg
    ensures forall i :: 0 <= i < |ranked| ==>
        && ranked[i].article in DayKeys(raw, sales)
        && ranked[i].orderCount == CountOrders(raw, ranked[i].article)
        && ranked[i].returnCount == CountReturns(sales, ranked[i].article)
  {
    forall i | 0 <= i < |ranked|
      ensures ranked[i].article in DayKeys(raw, sales)
      ensures ranked[i].orderCount == CountOrders(raw, ranked[i].article)
      ensures ranked[i].returnCount == CountReturns(sales, ranked[i].article)
    {
      assert ranked[i] in agg;
      var j :| 0 <= j < |agg| && agg[j] == ranked[i];
      EntryCounters(agg, j);
      assert Articles(agg)[j] == ranked[i].article;
    }
  }

  /** There are as many items as the day has keys, up to forty. */
  lemma ReportLength(date: Date, raw: seq<OrderRow>, sales: seq<SaleRow>)
    ensures var lines := BuildReport(date, raw, sales);
      var keys := DayKeys(raw, sales);
      keys != {} ==> |lines| - 2 == if |keys| < MaxShown then |keys| else MaxShown
  {
    RankedEntries(raw, sales);
  }

  /** Each item shows a key of the day with its count of non-cancelled orders
      and of returns, the buyout ratio of the two and the badge of that
      ratio. */
  lemma ReportContents(date: Date, raw: seq<OrderRow>, sales: seq<SaleRow>)
    ensures var lines := BuildReport(date, raw, sales);
      forall i :: 2 <= i < |lines| && lines[i].Item? ==>
        && lines[i].article in DayKeys(raw, sales)
        && lines[i].ordered == CountOrders(raw, lines[i].article)
        && lines[i].returned == CountReturns(sales, lines[i].article)
        && lines[i].buyout == Buyout(lines[i].ordered, lines[i].returned)
        && lines[i].badge == BadgeFor(lines[i].buyout)
  {
    RankedEntries(raw, sales);
    RenderedContents(date, Ranked(raw, sales), DayKeys(raw, sales), raw, sales);
  }

  /** Below the header and the blank line everything is an item, no article is
      shown twice, and order counts never increase down the list. */
  lemma ReportOrder(date: Date, raw: seq<OrderRow>, sales: seq<SaleRow>)
    ensures var lines := BuildReport(date, raw, sales);
      forall i, j :: 2 <= i < j < |lines| ==>
        && lines[i].Item? && lines[j].Item?
        && lines[i].article != lines[j].article
        && lines[i].ordered >= lines[j].ordered
  {
    RankedEntries(raw, sales);
    RenderedOrder(date, Ranked(raw, sales));
  }

  /** A key of the day that the forty-item cut leaves out has no more orders
      than any article shown. */
  lemma ReportCut(date: Date, raw: seq<OrderRow>, sales: seq<SaleRow>)
    ensures var lines := BuildReport(date, raw, sales);
      forall a :: a in DayKeys(raw, sales) && (forall i :: 2 <= i < |lines| && lines[i].Item? ==> lines[i].article != a) ==>
        forall i :: 2 <= i < |lines| && lines[i].Item? ==> CountOrders(raw, a) <= lines[i].ordered
  {
    RankedEntries(raw, sales);
    KeysRanked(raw, sales);
    RenderedCut(date, Ranked(raw, sales), DayKeys(raw, sales), raw);
  }

  /** Every key of the day has an entry in the ranked tally. */
  lemma KeysRanked(raw: seq<OrderRow>, sales: seq<SaleRow>)
    ensures var ranked := Ranked(raw, sales);
      forall a :: a in DayKeys(raw, sales) ==> exists j :: 0 <= j < |ranked| && ranked[j].article == a
  {
    var agg := Aggregate(DayOrders(raw), sales);
    assert Ranked(raw, sales) == Rank(agg);
    DayTallyKeys(raw, sales);
    RankSize(agg);
    ArticlesListed(agg, Rank(agg), DayKeys(raw, sales));
  }

  /** When `ranked` holds every entry of `agg`, each key of `agg` is the
      article of some entry of `ranked`. */
  lemma ArticlesListed(agg: seq<Entry>, ranked: seq<Entry>, keys: set<string>)
    requires forall a :: a in Articles(agg) <==> a in keys
    requires forall x :: x in agg ==> x in ranked
    ensures forall a :: a in keys ==> exists j :: 0 <= j < |ranked| && ranked[j].article == a
  {
    forall a | a in keys
      ensures exists j :: 0 <= j < |ranked| && ranked[j].article == a
    {
      var k :| 0 <= k < |agg| && Articles(agg)[k] == a;
      assert agg[k] in ranked;
    }
  }

  lemma RenderedContents(date: Date, ranked: seq<Entry>, keys: set<string>, raw: seq<OrderRow>, sales: seq<SaleRow>)
    requires forall i :: 0 <= i < |ranked| ==>
        && ranked[i].article in keys
        && ranked[i].orderCount == CountOrders(raw, ranked[i].article)
        && ranked[i].returnCount == CountReturns(sales, ranked[i].article)
    ensures var lines := Render(date, ranked);
      forall i :: 2 <= i < |lines| && lines[i].Item? ==>
        && lines[i].article in keys
        && lines[i].ordered == CountOrders(raw, lines[i].article)
        && lines[i].returned == CountReturns(sales, lines[i].article)
        && lines[i].buyout == Buyout(lines[i].ordered, lines[i].returned)
        && lines[i].badge == BadgeFor(lines[i].buyout)
  {
    var lines := Render(date, ranked);
    forall i | 2 <= i < |lines| && lines[i].Item?
      ensures lines[i].article in keys
      ensures lines[i].ordered == CountOrders(raw, lines[i].article)
      ensures lines[i].returned == CountReturns(sales, lines[i].article)
      ensures lines[i].buyout == Buyout(lines[i].ordered, lines[i].returned)
      ensures lines[i].badge == BadgeFor(lines[i].buyout)
    {
      assert lines[i] == ItemLine(ranked[i - 2]);
    }
  }

  lemma RenderedOrder(date: Date, ranked: seq<Entry>)
    requires SortedDesc(ranked) && Distinct(Articles(ranked))
    ensures var lines := Render(date, ranked);
      forall i, j :: 2 <= i < j < |lines| ==>
        && lines[i].Item? && lines[j].Item?
        && lines[i].article != lines[j].article
        && lines[i].ordered >= lines[j].ordered
  {
    var lines := Render(date, ranked);
    forall i, j | 2 <= i < j < |lines|
      ensures lines[i].Item? && lines[j].Item?
      ensures lines[i].article != lines[j].article
      ensures lines[i].ordered >= lines[j].ordered
    {
      assert ranked != [];
      assert lines[i] == ItemLine(ranked[i - 2]) && lines[j] == ItemLine(ranked[j - 2]);
    }
  }

  lemma RenderedCut(date: Date, ranked: seq<Entry>, keys: set<string>, raw: seq<OrderRow>)
    requires SortedDesc(ranked) && |ranked| == |keys|
    requires forall i :: 0 <= i < |ranked| ==> ranked[i].orderCount == CountOrders(raw, ranked[i].article)
    requires forall a :: a in keys ==> exists j :: 0 <= j < |ranked| && ranked[j].article == a
    ensures var lines := Render(date, ranked);
      && (keys != {} ==> |lines| - 2 == if |keys| < MaxShown then |keys| else MaxShown)
      && (forall a :: a in keys && (forall i :: 2 <= i < |lines| && lines[i].Item? ==> lines[i].article != a) ==>
        forall i :: 2 <= i < |lines| && lines[i].Item? ==> CountOrders(raw, a) <= lines[i].ordered)
  {
    var lines := Render(date, ranked);
    if ranked == [] {
      assert keys == {};
    }
    forall a | a in keys && (forall i :: 2 <= i < |lines| && lines[i].Item? ==> lines[i].article != a)
      ensures forall i :: 2 <= i < |lines| && lines[i].Item? ==> CountOrders(raw, a) <= lines[i].ordered
    {
      var j :| 0 <= j < |ranked| && ranked[j].article == a;
      LeftOutOutranked(date, ranked, j);
    }
  }

  /** A ranked entry that has no item of its own has no more orders than any
      item shown. */
  lemma LeftOutOutranked(date: Date, ranked: seq<Entry>, j: nat)
    requires SortedDesc(ranked) && j < |ranked|
    requires var lines := Render(date, ranked);
      forall i :: 2 <= i < |lines| && lines[i].Item? ==> lines[i].article != ranked[j].article
    ensures var lines := Render(date, ranked);
      forall i :: 2 <= i < |lines| && lines[i].Item? ==> ranked[j].orderCount <= lines[i].ordered
  {
    var lines := Render(date, ranked);
    TopDominates(ranked);
    assert j < |Top(ranked)| ==> lines[j + 2] == ItemLine(ranked[j]);
    forall i | 2 <= i < |lines| && lines[i].Item?
      ensures ranked[j].orderCount <= lines[i].ordered
    {
      assert lines[i] == ItemLine(ranked[i - 2]);
    }
  }

  /** A worked example: three orders of "A1", one
      sale "S100" and one return "R200" give one green item, 3 ordered,
      1 returned, buyout 2/3. */
  lemma WorkedExample(date: Date)
    ensures var o := OrderRow(Str("A1"), Bool(false));
      var raw := [o, o, o];
      var sales := [SaleRow(Str("A1"), Str("S100"), NoAmount), SaleRow(Str("A1"), Str("R200"), NoAmount)];
      BuildReport(date, raw, sales) == [Header(date), Blank, Item(Green, "A1", 3, 1, 2.0 / 3.0)]
  {
    ExampleRows();
    OneArticleDay(date, OrderRow(Str("A1"), Bool(false)),
      SaleRow(Str("A1"), Str("S100"), NoAmount), SaleRow(Str("A1"), Str("R200"), NoAmount), "A1");
  }

  /** The example's rows: all keyed "A1", "S100" a sale, "R200" a return. */
  lemma ExampleRows()
    ensures ArticleKey(Str("A1")) == "A1"
    ensures !IsReturn(SaleRow(Str("A1"), Str("S100"), NoAmount))
    ensures IsReturn(SaleRow(Str("A1"), Str("R200"), NoAmount))
  {
    Strings.StripTrimmed("A1");
    IsReturnExactly(SaleRow(Str("A1"), Str("S100"), NoAmount));
    IsReturnExactly(SaleRow(Str("A1"), Str("R200"), NoAmount));
  }

  /** The worked example for any rows with one key and the example's
      classifications. */
  lemma OneArticleDay(date: Date, o: OrderRow, s1: SaleRow, s2: SaleRow, a: string)
    requires !IsCancelled(o) && ArticleKey(o.supplierArticle) == a
    requires ArticleKey(s1.supplierArticle) == a && !IsReturn(s1)
    requires ArticleKey(s2.supplierArticle) == a && IsReturn(s2)
    ensures BuildReport(date, [o, o, o], [s1, s2]) == [Header(date), Blank, Item(Green, a, 3, 1, 2.0 / 3.0)]
  {
    OneArticleCounts(o, s1, s2, a);
    OrdersKeyed(o, a);
    SalesKeyed(s1, s2, a);
    SingleKeyReport(date, [o, o, o], [s1, s2], a);
    ExampleItem(a);
  }

  lemma OrdersKeyed(o: OrderRow, a: string)
    requires ArticleKey(o.supplierArticle) == a
    ensures forall x :: x in [o, o, o] ==> ArticleKey(x.supplierArticle) == a
  {
  }

  lemma SalesKeyed(s1: SaleRow, s2: SaleRow, a: string)
    requires ArticleKey(s1.supplierArticle) == a && ArticleKey(s2.supplierArticle) == a
    ensures forall x :: x in [s1, s2] ==> ArticleKey(x.supplierArticle) == a
  {
    forall x | x in [s1, s2]
      ensures ArticleKey(x.supplierArticle) == a
    {
      assert x == s1 || x == s2;
    }
  }

  /** Three orders and one return: buyout 2/3, green. */
  lemma ExampleItem(a: string)
    ensures ItemLine(Entry(a, 3, 1)) == Item(Green, a, 3, 1, 2.0 / 3.0)
  {
    assert Buyout(3, 1) == 2.0 / 3.0;
  }

  /** A day whose rows all carry the same key, with at least one live order,
      yields a single item. */
  lemma SingleKeyReport(date: Date, raw: seq<OrderRow>, sales: seq<SaleRow>, a: string)
    requires exists o :: o in raw && !IsCancelled(o)
    requires forall o :: o in raw ==> ArticleKey(o.supplierArticle) == a
    requires forall s :: s in sales ==> ArticleKey(s.supplierArticle) == a
    ensures BuildReport(date, raw, sales) ==
      [Header(date), Blank, ItemLine(Entry(a, CountOrders(raw, a), CountReturns(sales, a)))]
  {
    SameKeyDay(raw, sales, a);
    SingleKeyRanked(raw, sales, a);
    RenderOne(date, Entry(a, CountOrders(raw, a), CountReturns(sales, a)));
  }

  lemma SingleKeyRanked(raw: seq<OrderRow>, sales: seq<SaleRow>, a: string)
    requires DayKeys(raw, sales) == {a}
    ensures Ranked(raw, sales) == [Entry(a, CountOrders(raw, a), CountReturns(sales, a))]
  {
    var ranked := Ranked(raw, sales);
    RankedEntries(raw, sales);
    assert |ranked| == 1;
    assert ranked[0].article in {a};
  }

  lemma RenderOne(date: Date, e: Entry)
    ensures Render(date, [e]) == [Header(date), Blank, ItemLine(e)]
  {
    var lines := Render(date, [e]);
    assert |lines| == 3 && lines[2] == ItemLine(e);
    assert lines == [lines[0], lines[1], lines[2]];
  }

  lemma OneArticleCounts(o: OrderRow, s1: SaleRow, s2: SaleRow, a: string)
    requires !IsCancelled(o) && ArticleKey(o.supplierArticle) == a
    requires ArticleKey(s1.supplierArticle) == a && !IsReturn(s1)
    requires ArticleKey(s2.supplierArticle) == a && IsReturn(s2)
    ensures CountOrders([o, o, o], a) == 3
    ensures CountReturns([s1, s2], a) == 1
  {
    ThreeOrders(o, a);
    SaleThenReturn(s1, s2, a);
  }

  lemma ThreeOrders(o: OrderRow, a: string)
    requires !IsCancelled(o) && ArticleKey(o.supplierArticle) == a
    ensures CountOrders([o, o, o], a) == 3
  {
    CountOrdersStep([], o, a);
    CountOrdersStep([o], o, a);
    CountOrdersStep([o, o], o, a);
    assert [o, o, o] == [o, o] + [o] && [o, o] == [o] + [o] && [o] == [] + [o];
  }

  lemma SaleThenReturn(s1: SaleRow, s2: SaleRow, a: string)
    requires ArticleKey(s1.supplierArticle) == a && !IsReturn(s1)
    requires ArticleKey(s2.supplierArticle) == a && IsReturn(s2)
    ensures CountReturns([s1, s2], a) == 1
  {
    CountReturnsStep([], s1, a);
    CountReturnsStep([s1], s2, a);
    assert [s1, s2] == [s1] + [s2] && [s1] == [] + [s1];
  }

  /** A day whose rows all have key `a`, with at least one live order, has
      the single key `a`. */
  lemma SameKeyDay(raw: seq<OrderRow>, sales: seq<SaleRow>, a: string)
    requires exists o :: o in raw && !IsCancelled(o)
    requires forall o :: o in raw ==> ArticleKey(o.supplierArticle) == a
    requires forall s :: s in sales ==> ArticleKey(s.supplierArticle) == a
    ensures DayKeys(raw, sales) == {a}
  {
    DayKeysWithin(raw, sales, {a});
    var o :| o in raw && !IsCancelled(o);
    assert ArticleKey(o.supplierArticle) in DayKeys(raw, sales);
  }

  lemma CountOrdersStep(raw: seq<OrderRow>, o: OrderRow, a: string)
    ensures CountOrders(raw + [o], a) == CountOrders(raw, a) + if !IsCancelled(o) && ArticleKey(o.supplierArticle) == a then 1 else 0
  {
    assert (raw + [o])[..|raw|] == raw;
  }

  lemma CountReturnsStep(sales: seq<SaleRow>, s: SaleRow, a: string)
    ensures CountReturns(sales + [s], a) == CountReturns(sales, a) + if IsReturn(s) && ArticleKey(s.supplierArticle) == a then 1 else 0
  {
    assert (sales + [s])[..|sales|] == sales;
  }
}
