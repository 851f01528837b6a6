/**
  The rows of one day as the statistics API returns them, and the per-row
  decisions the report makes: dropping cancelled orders, resolving a row's
  article key, and classifying a sale row as a return.

  A row is a JSON object; only the fields the report reads are kept, each as
  a small datatype that distinguishes a missing key, an explicit `null` and a
  value, because `row.get(key, default)` treats the three differently.
 */
module Rows {
  import opened Strings

  /** A text field: the key is missing, the value is JSON `null`, or a string. */
  datatype Text = Missing | Null | Str(s: string)

  /** The `isCancel` field of an order row. */
  datatype Flag = NoFlag | NullFlag | Bool(value: bool)

  /** The `forPay` field of a sale row: missing, `null`, a JSON number, or some
      other JSON value (a string, a list, ...). */
  datatype Amount = NoAmount | NullAmount | Number(value: real) | NotNumber

  datatype OrderRow = OrderRow(supplierArticle: Text, isCancel: Flag)

  datatype SaleRow = SaleRow(supplierArticle: Text, saleId: Text, forPay: Amount)

  /** The bucket for rows whose article is missing or blank. */
  const NoArticle: string := "(без артикула)"

  /** `str(row.get(key, ""))`: a missing key reads as the default "", and
      `str(None)` is the text "None". */
  function StrOf(t: Text): string {
    match t
    case Missing => ""
    case Null => "None"
    case Str(s) => s
  }

  /** Python truthiness of `row.get("isCancel", False)`. */
  predicate IsCancelled(o: OrderRow) {
    o.isCancel == Bool(true)
  }

  /** The order feed of a day keeps exactly the rows that are not cancelled, in
      their original order. */
  function DayOrders(raw: seq<OrderRow>): (r: seq<OrderRow>)
    ensures |r| <= |raw|
    ensures forall o :: o in r <==> o in raw && !IsCancelled(o)
    decreases |raw|
  {
    if raw == [] then []
    else
      var rest := DayOrders(raw[..|raw| - 1]);
      var last := raw[|raw| - 1];
      assert raw == raw[..|raw| - 1] + [last];
      if IsCancelled(last) then rest else rest + [last]
  }

  /** The filter works row by row: filtering a concatenation filters each
      part, and a single row is kept exactly when it is not cancelled. So the
      kept rows stay in their original order. */
  lemma {:induction false} DayOrdersConcat(a: seq<OrderRow>, b: seq<OrderRow>)
    ensures DayOrders(a + b) == DayOrders(a) + DayOrders(b)
    decreases |b|
  {
    if b == [] {
      assert a + b == a;
    } else {
      var p, last := b[..|b| - 1], b[|b| - 1];
      var keep := if IsCancelled(last) then [] else [last];
      assert DayOrders(a + b) == DayOrders(a + p) + keep by {
        assert a + b == (a + p) + [last];
        DayOrdersLast(a + b, a + p, last);
      }
      assert DayOrders(b) == DayOrders(p) + keep by {
        DayOrdersLast(b, p, last);
      }
      DayOrdersConcat(a, p);
      var fa, fp := DayOrders(a), DayOrders(p);
      assert (fa + fp) + keep == fa + (fp + keep);
    }
  }

  lemma DayOrdersLast(s: seq<OrderRow>, p: seq<OrderRow>, last: OrderRow)
    requires s == p + [last]
    ensures DayOrders(s) == DayOrders(p) + if IsCancelled(last) then [] else [last]
  {
    assert s[..|s| - 1] == p;
  }

  lemma DayOrdersSingle(o: OrderRow)
    ensures DayOrders([o]) == if IsCancelled(o) then [] else [o]
  {
    assert [o][..0] == [];
  }

  /** The aggregation key of a row's `supplierArticle`: the stripped text, or
      `NoArticle` when nothing but whitespace is left. */
  function ArticleKey(t: Text): (a: string)
    ensures a != ""
    ensures a == NoArticle <==> (AllSpace(StrOf(t)) || Strip(StrOf(t)) == NoArticle)
    ensures a != NoArticle ==> a == Strip(StrOf(t))
  {
    var s := Strip(StrOf(t));
    if s == "" then NoArticle else s
  }

  /** The sale/return classifier exactly as the bot writes it: an identifier
      whose upper-case form starts with "S" is a sale; otherwise a negative
      numeric `forPay` makes it a return; otherwise it is a return anyway. */
  predicate IsReturn(row: SaleRow) {
    var saleId := Upper(StrOf(row.saleId));
    if StartsWith(saleId, "S") then false
    else if row.forPay.Number? && row.forPay.value < 0.0 then true
    else true
  }

  /** Whether the first character of a sale identifier marks a genuine sale. */
  predicate SaleMarked(id: string) {
    |id| > 0 && (id[0] == 's' || id[0] == 'S')
  }

  /** The `forPay` test is dead: a row is a return exactly when its identifier
      does not start with "s" or "S", whatever its amount. */
  lemma IsReturnExactly(row: SaleRow)
    ensures IsReturn(row) <==> !SaleMarked(StrOf(row.saleId))
  {
    var id := StrOf(row.saleId);
    if |id| > 0 {
      assert Upper(id)[..1] == [AsciiUpper(id[0])];
    }
  }

  /** Changing only the amount of a sale row never changes its classification. */
  lemma IsReturnIgnoresAmount(row: SaleRow, amount: Amount)
    ensures IsReturn(row.(forPay := amount)) == IsReturn(row)
  {
    IsReturnExactly(row);
    IsReturnExactly(row.(forPay := amount));
  }

  /** Rows without a sale identifier, or with a `null` one (read as "NONE"),
      count as returns. */
  lemma UnmarkedIdIsReturn(row: SaleRow)
    requires row.saleId == Missing || row.saleId == Null
    ensures IsReturn(row)
  {
    IsReturnExactly(row);
  }

  /** A row whose article is missing or blank falls into the `NoArticle` bucket
      rather than being dropped. */
  lemma BlankArticleIsNoArticle(t: Text)
    requires t == Missing || (t.Str? && AllSpace(t.s))
    ensures ArticleKey(t) == NoArticle
  {
  }

  /** Keys are stable: a row whose article is already a key lands in that key. */
  lemma ArticleKeyIdempotent(t: Text)
    ensures ArticleKey(Str(ArticleKey(t))) == ArticleKey(t)
  {
    var a := ArticleKey(t);
    if a == NoArticle {
      assert !IsSpace(NoArticle[0]) && !IsSpace(NoArticle[|NoArticle| - 1]);
      StripTrimmed(NoArticle);
    } else {
      StripIdempotent(StrOf(t));
    }
  }
}
