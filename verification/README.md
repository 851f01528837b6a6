# Daily Wildberries report of the Telegram bot, in Dafny

The bot (`bot.py`) sends a seller a daily summary of the Wildberries
marketplace. It fetches the day's order rows and sale rows. It drops
cancelled orders and groups every row under an article key (the trimmed
`supplierArticle`, or the sentinel `"(без артикула)"`). For each article
it counts the orders and the returns. It ranks the articles by order count
and prints, for the first forty, the counts, the buyout ratio
`(orders - returns) / orders` and a red, yellow or green badge.

This project models that computation (`build_report_text` with the helpers it
uses) as pure functions over immutable data and proves what it computes.

- `strings.dfy` (`Strings`) covers Python's `str.strip()` with the `str.isspace`
  character set, and ASCII upper-casing.
- `rows.dfy` (`Rows`) covers the rows as JSON objects and the per-row
  decisions:
  - the cancel filter of `get_day_orders`;
  - the article key `art`;
  - the return classifier `is_return`.

  A text field distinguishes a missing key, an explicit `null` and a string,
  because `str(row.get(key, ""))` reads them as `""`, `"None"` and the string.
- `aggregation.dfy` (`Aggregation`) covers the per-article tally. It is an
  insertion-ordered association list, as Python's `dict` is, built by the two
  loops with `setdefault`. It is compared with reference definitions:
  - the per-article counts over the input rows (`CountOrders`,
    `CountReturns`);
  - the keys in order of first appearance (`Dedup`).
- `ranking.dfy` (`Ranking`) covers `sorted(..., key=orders, reverse=True)`
  as a stable insertion sort, and the forty-entry cut.
- `report.dfy` (`Report`) covers the buyout ratio (exact `real`
  arithmetic), the badge and the message. The message is a list of abstract
  lines: a header, a blank line, then either the "no data" line or one item
  per shown article. It also holds the end-to-end lemmas about
  `BuildReport`.

Two consequences of the code are worth stating, because a reader might
expect otherwise:

- Tied articles come out in a fixed order. Python's sort is stable and the
  dict keeps insertion order, so among articles with equal order counts, those
  first seen in the order feed come first, then those first seen in the sale
  feed, each group in order of first appearance. `Rank`, `StableSortUnique`,
  `DayTallyKeys` and `DedupFirstOrder` prove exactly this order.
- An explicit JSON `null` is not blank. A missing key or a blank string goes
  to the sentinel, but `str(None)` is `"None"`, an ordinary article key.

`is_return` has a dead branch. The test on a negative `forPay` returns `True`,
and so does the fall-through after it. `IsReturn` keeps both branches as
written, and `IsReturnExactly` proves that only the sale identifier matters.

## Model

| member | source | states |
|---|---|---|
| Strings.IsSpace | bot.py:48 | the characters `strip()` removes, the fixed list for which Python's `str.isspace` is true; used by `Strip`, whose contract and `StripSlice` state what is removed |
| Strings.StripStart | bot.py:48 | where `lstrip` cuts: everything before it is whitespace, and the character at it is not |
| Strings.StripEnd | bot.py:48 | where `rstrip` cuts: everything after it is whitespace, and the character before it is not (unless nothing is left) |
| Strings.Strip | bot.py:48 | `strip()` leaves no whitespace at either end, and its result is empty exactly when the text is all whitespace |
| Strings.StripSlice | bot.py:48 | the stripped text is the slice of the original between its leading and its trailing whitespace |
| Strings.StripTrimmed | bot.py:48 | text with no whitespace at either end is unchanged by `strip()` |
| Strings.StripIdempotent | bot.py:48 | stripping twice is stripping once |
| Strings.AsciiUpper | bot.py:35 | upper-casing maps each lower-case ASCII letter to the capital of the same letter and leaves every other character unchanged; so the result is "S" exactly for "s" or "S" |
| Strings.Upper | bot.py:35 | `.upper()` maps every character by `AsciiUpper`, keeps the length, and the result starts with "S" exactly when the text starts with "s" or "S" |
| Strings.StartsWith | bot.py:37 | `.startswith("S")`; with `Upper`'s contract it yields `IsReturnExactly` |
| Rows.StrOf | bot.py:48 | `str(row.get(key, ""))` (also at bot.py:35): missing reads as "", `null` as "None"; its effect is stated by `UnmarkedIdIsReturn` and `ArticleKey` |
| Rows.IsCancelled | bot.py:29 | the truthiness of `isCancel`; its effect on the feed is stated by `DayOrders` and `DayOrdersSingle` |
| Rows.DayOrders | bot.py:29 | the order feed keeps exactly the rows whose `isCancel` is not true |
| Rows.DayOrdersConcat | bot.py:29 | the filter works row by row, so it keeps the order of the rows it keeps |
| Rows.DayOrdersSingle | bot.py:29 | one row is kept exactly when it is not cancelled |
| Rows.ArticleKey | bot.py:48 | the key is never empty; it is the stripped article, and the sentinel exactly when the article is blank (or already reads as the sentinel) |
| Rows.BlankArticleIsNoArticle | bot.py:48 | rows with a missing or all-whitespace article are grouped under the sentinel, not dropped |
| Rows.ArticleKeyIdempotent | bot.py:48 | resolving a key again gives the same key |
| Rows.IsReturn | bot.py:34-41 | `is_return` with both branches as written; its meaning is stated by `IsReturnExactly` and `IsReturnIgnoresAmount` |
| Rows.IsReturnExactly | bot.py:34-41 | a sale row is a return exactly when its upper-cased `saleID` does not start with "S", whatever `forPay` holds |
| Rows.IsReturnIgnoresAmount | bot.py:36-41 | changing `forPay` never changes the classification |
| Rows.UnmarkedIdIsReturn | bot.py:35-41 | a row without `saleID`, or with `null` (read as "NONE"), is a return |
| Aggregation.IndexOf | bot.py:52 | dictionary lookup finds the first entry with the key, or reports that there is none |
| Aggregation.OrdersOf | bot.py:53 | `agg[a]["orders"]`, read through `IndexOf`; `EntryCounters` states that it is the counter of the entry for `a` |
| Aggregation.ReturnsOf | bot.py:59 | `agg[a]["returns"]`, read through `IndexOf`; `EntryCounters` states that it is the counter of the entry for `a` |
| Aggregation.EntryCounters | bot.py:47-59 | with distinct keys, each entry holds the counters its key reads |
| Aggregation.Extend | bot.py:52 | adding keys in insertion order keeps them distinct, and the keys present are the old ones plus the new ones |
| Aggregation.ExtendConcat | bot.py:50-59 | inserting the keys of two feeds one after the other is inserting the keys of their concatenation |
| Aggregation.SetDefault | bot.py:52 | `setdefault` makes the key present, appends it only when new, and changes no counter |
| Aggregation.AddOrder | bot.py:51-53 | one order adds one to its key's order count and changes no other counter |
| Aggregation.AddSale | bot.py:56-59 | one sale row adds one to its key's return count when it is a return, and never changes an order count |
| Aggregation.AddOrders | bot.py:50-53 | the order loop; its effect is stated by `AddOrdersSpec` |
| Aggregation.AddOrdersSpec | bot.py:50-53 | the order loop adds to each key's order count the number of rows with that key, leaves return counts alone, and appends new keys in first-seen order |
| Aggregation.AddSales | bot.py:55-59 | the sale loop; its effect is stated by `AddSalesSpec` |
| Aggregation.AddSalesSpec | bot.py:55-59 | the sale loop changes no order count, adds to each key's return count its number of return rows, and appends new keys in first-seen order |
| Aggregation.Aggregate | bot.py:47-59 | the whole tally from the filtered orders and the sales; its keys and counts are stated by `DayTallyKeys` and `DayTallyCounts` |
| Aggregation.DayOrdersCount | bot.py:50-53 | counting the filtered feed gives, for every key, the number of non-cancelled raw order rows with that key |
| Aggregation.DayTallyKeys | bot.py:47-59 | the tally's keys are the keys of the non-cancelled orders and of all sales, each once, in first-seen order with orders first |
| Aggregation.DayTallyCounts | bot.py:47-59 | every key's order count is its number of non-cancelled order rows, and its return count is its number of return rows; an unseen key reads 0 |
| Aggregation.DedupFirstOrder | bot.py:47-59 | the reference key order lists each key once, ordered by its first position in the feed, read from the front |
| Aggregation.DayKeysEmpty | bot.py:47-59 | a day has no keys exactly when it has no sale rows and every order row is cancelled |
| Aggregation.TallyEmpty | bot.py:47-59 | the tally is empty exactly when the day has no keys |
| Ranking.Insert | bot.py:61 | inserting into a descending list keeps it descending, adds exactly the entry, and puts it in front of the entries with the same count |
| Ranking.Rank | bot.py:61 | the ranked list is a permutation of the tally, non-increasing in order count, and keeps the tally's order among equal counts |
| Ranking.RankSize | bot.py:61 | ranking keeps the number of entries and the set of entries |
| Ranking.StableSortUnique | bot.py:61 | any descending order that keeps the tally's order among equal counts is `Rank`'s, so the tie order is fully determined |
| Ranking.RankDistinct | bot.py:61 | ranking never lists an article twice |
| Ranking.Top | bot.py:73 | `items[:40]` is the first min(n, 40) ranked entries |
| Ranking.TopDominates | bot.py:61-73 | no entry the cut drops has more orders than an entry it keeps |
| Report.Buyout | bot.py:76 | the ratio is 0 without orders; otherwise ratio × orders = orders − returns; it is at most 1, negative exactly when returns exceed orders, and 1 exactly when there are no returns |
| Report.BadgeFor | bot.py:68-71 | red below 0.22, yellow from 0.22 up to 0.30, green from 0.30 on |
| Report.BadgeMonotone | bot.py:68-71 | a higher ratio never gets a worse badge |
| Report.BadgeFromCounts | bot.py:68-76 | the badge in integers: red when there are no orders or 100·(o−r) < 22·o, yellow when 100·(o−r) < 30·o, else green |
| Report.ItemLine | bot.py:73-80 | the item for one entry; its contents (counts, ratio, badge) are stated by `ReportContents` and `RenderedContents` |
| Report.Render | bot.py:63-80 | the message opens with the header and a blank line, says "no data" exactly for an empty ranking, and otherwise shows one item per entry of the first forty, in rank order |
| Report.BuildReport | bot.py:43-82 | `build_report_text` with the feeds passed in; stated by `NoDataExactly`, `ReportLength`, `ReportContents`, `ReportOrder`, `ReportCut` and `WorkedExample` |
| Report.Ranked | bot.py:61 | `items`, the day's tally sorted by `Rank`; stated by `RankedEntries` |
| Report.NoDataExactly | bot.py:63-66 | the report says "no data" exactly when there are no sale rows and every order row is cancelled |
| Report.RankedEntries | bot.py:47-61 | the ranked tally is descending, lists each article once, has one entry per key of the day, and carries each key's true counts |
| Report.ReportLength | bot.py:73 | a day with keys shows min(number of keys, 40) items |
| Report.ReportContents | bot.py:73-80 | each item shows a key of the day with its non-cancelled order count, its return count, their buyout ratio and that ratio's badge |
| Report.ReportOrder | bot.py:61-80 | below the header every line is an item, no article appears twice, and order counts never increase down the list |
| Report.ReportCut | bot.py:61-73 | a key left out by the forty-item cut has no more orders than any shown article |
| Report.SingleKeyReport | bot.py:43-80 | a day whose rows all share one key, with at least one live order row anywhere in the feed, yields exactly one item with that key's counts |
| Report.WorkedExample | bot.py:43-80 | three "A1" orders with sales "S100" and "R200" give one green item: 3 ordered, 1 returned, ratio 2/3 |

## Left out

- `wb_get`, `get_day_orders` and `get_day_sales` (bot.py:20-32) make HTTP
  calls with a token, a timeout and `raise_for_status`. The model takes the
  two decoded JSON arrays as parameters. Of this code, only the cancel
  filter at bot.py:29 is modelled.
- The environment configuration (bot.py:12-16) and the startup checks in
  `main` (bot.py:114-127) are process plumbing.
- The Telegram command handlers, `scheduled_job` and polling
  (bot.py:87-112, 120-127) are asynchronous chat transport.
- `msk_today` and the Moscow time zone (bot.py:84-85) read the clock. The
  report date is a parameter, and only the header carries it.
- The text of the message is not modelled. This covers:
  - the header's `strftime`;
  - the HTML markup and emoji;
  - the `{buyout*100:.1f}%` formatting;
  - the final `"\n".join(lines).strip()` (bot.py:63, 77-82).

  Lines are abstract values that carry what the text shows.
- Report.Buyout: the ratio is exact rational arithmetic, not Python's float
  division, and the thresholds 0.22 and 0.30 are exact. The float result
  differs only by rounding, so the badge can differ only for a ratio within
  rounding distance of a threshold without being equal to it.
- Strings.AsciiUpper: upper-casing is ASCII only. Python also maps some
  non-ASCII letters to a string that starts with "S" (`"ſ".upper()` is "S",
  `"ß".upper()` is "SS"). An identifier that starts with such a letter is a
  sale in Python and a return in the model.
- Rows.IsCancelled: `isCancel` is modelled as missing, `null` or a boolean.
  Python's truthiness of other JSON values (a non-zero number, a non-empty
  string) would also cancel the row.
- Rows.StrOf: `supplierArticle` and `saleID` are modelled as missing, `null`
  or a JSON string. A number or boolean there is rendered by `str()` (for
  example `123` as "123"), which the model does not do.
- Strings.IsSpace: the whitespace set is the fixed list of characters for
  which Python's `str.isspace` is true. The model does not follow later
  changes of the Unicode tables.
