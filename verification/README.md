# Amazon price tracker, modelled in Dafny

The system tracks Amazon products. A product is added by URL, its page is scraped for a
title and a price, each price is logged, and an alert goes out when the price falls below
the product's target. This project models the logic at the core of that system and proves
what it promises:

- **The two URL canonicalisers.**
  - `normalize_amazon_url` (database.py) parses the URL, searches only its path for
    `/dp/` or `/gp/product/` followed by ten word characters, and rebuilds the URL as
    scheme, host and `/dp/<id>`.
  - `_normalize_amazon_url` (scraper.py) searches the whole string, and writes a fixed
    host followed by the marker it found.
  - Modules `Asin` (the leftmost-match search) and `Url` (`urlparse` / `urlunparse`)
    support them. `Url` checks a bracketed host with the IPv4 and IPv6 address forms of
    Python's `ipaddress`, modelled as predicates in module `IpAddress`.
  - `Url` and `IpAddress` follow `urllib.parse` and `ipaddress` as of Python 3.12.9.
    Earlier releases raise in fewer cases, so `Url.Parse`'s errors differ there:
    - the check of the host between the brackets dates from 3.11.4 and 3.12.0;
    - the check of the text before `[` and between `]` and the port dates from 3.12.9.
- **The product store** (database.py) is the class `Database.Store`:
  - it holds the `products` and `price_history` tables as sequences of rows in rowid
    order;
  - its methods add, delete, log a price and set a title;
  - its functions read a product and a product's price history.
  - Every method keeps the table constraints: unique URLs, increasing rowids, and history
    rows that point at an existing product.
- **`scrape_product_info`** (scraper.py) works over an abstract fetched `Page.Document`,
  which maps each selector to the element it matches.
  - The title loop and the price loop are methods with loop invariants. They are proved
    against the fallback-chain functions `FirstTitle` and `FirstPrice`.
  - The fraction step is a method proved against `WithFraction`.
- **`check_price`** (price_tracker.py) picks the price string, keeps only digits and
  points, parses the result, and compares it with the fixed target.
- **`scrape_and_notify`** (tasks.py) is a method over a `Store` and an `Outbox` of sent
  alerts.

Python's `float()` is modelled by module `Decimal`. It accepts the decimal grammar
`float()` accepts: a sign, digits with at most one point, and an exponent. The text may be
surrounded by the whitespace `float()` skips. That is ASCII tab, line feed, vertical tab,
form feed, carriage return and space, plus every non-ASCII whitespace character. The
separators U+001C to U+001F are whitespace to `str.strip()`, but `float()` does not skip
them. The value is an exact `real`. Scraped text has only `,` and `$` removed before
`float()`, so other text can reach it. The model rejects such text, and also the special
forms listed under "Left out".

### Where the code is followed over the written description of the system

- `normalize_amazon_url` can raise, because `urlparse` raises `ValueError` on some network
  locations. It raises when one square bracket appears without the other. It also raises
  when both appear and the bracketed host fails its check: text before `[` or between `]`
  and the port, an IPv4 address, or a host that is neither an IPv6 nor an IPvFuture address
  (such as `[a]`). The model returns `Err` in all these cases (`Url.NetlocError`, with the
  address forms of Python's `ipaddress` in module `IpAddress`), and `Store.AddProduct`
  reports `InvalidUrl` and changes nothing.
- `scrape_and_notify` never writes a title back. No call to `update_product_title` exists
  in it, so `ScrapeAndNotify` leaves the products table unchanged.
- A failed fetch is not reported separately from a missing price. `scrape_product_info`
  turns a transport error or an error status into `{'title': None, 'price': None}`, so the
  task ends as `PriceMissing`.
- tasks.py calls `database.get_product_by_id`, `database.add_price_history` and
  `mailer.send_price_alert`, none of which exist. They are bound to `Store.GetProduct`,
  `Store.LogPrice` and `Outbox.SendPriceAlert`.
- `log_price` does not catch the foreign-key error an unknown product id raises.
  `Store.LogPrice` returns `logged == false` and changes nothing.

## Model

| member | source | states |
|---|---|---|
| Asin.SearchFrom | database.py:16 | Searching from a position finds the first match at or after it, with no match in between. It finds nothing exactly when no later position matches. |
| Asin.Search | database.py:16 | The search reports the leftmost position where `/dp/` or `/gp/product/` is followed by ten word characters. It reports nothing exactly when no position matches. |
| Asin.LongIdTruncated | scraper.py:13 | An identifier longer than ten characters is cut to its first ten. |
| Url.Parse | database.py:13 | `urlparse`. Its properties are stated by `Url.ParseWellFormed`, `Url.ParseUnparseParts`, `Url.ParseUnparse`, `Url.BracketedHostAccepted` and `Url.BracketedNameRefused`. |
| Url.Unparse | database.py:25 | `urlunparse`. `Url.ParseUnparse` states that `urlparse` reads its output back. |
| Url.ParseWellFormed | database.py:13 | Every successful `urlparse` gives a lower-case scheme (or none), and a host with no `/?#` that passes the bracket checks. |
| Url.ParseUnparseParts | database.py:13-25 | `urlunparse` then `urlparse`, on a record with a lawful scheme, a host without `/?#`, a plain absolute path, no parameters and a query without `#`, succeeds exactly when the host passes the bracket checks. It then gives the record back, and otherwise raises the host's error. |
| Url.ParseUnparse | database.py:25 | For such a record whose host passes the bracket checks, `urlunparse` then `urlparse` gives the record back. |
| Url.BracketedAlone | database.py:13 | A host that is only `[h]` is checked as the address `h`. |
| Url.BracketedHostAccepted | database.py:13 | A bracketed host passes exactly when it is an IPvFuture address or an IPv6 address. An IPv4 address is refused. |
| Url.BracketedNameRefused | database.py:13 | A bracketed name without a colon and not starting with `v`, such as `[a]`, makes `urlparse` raise. |
| Url.UnparseBracketedName | database.py:13-25 | A record whose host is such a bracketed name does not survive `urlunparse` then `urlparse`. |
| Url.BracketedLoopback | database.py:13 | `[::1]` passes the bracket checks. |
| IpAddress.Ipv4NotIpv6 | database.py:13 | No text is both an IPv4 and an IPv6 address. |
| IpAddress.Loopback | database.py:13 | `::1` is an IPv6 address. |
| Database.NormalizeAmazonUrl | database.py:8-25 | Raises exactly when `urlparse` raises, with the same error. The normalisation itself is stated by `Database.NormalizeWithoutId`, `Database.NormalizeWithId`, `Database.NormalizeIdempotent` and the lemmas after it. |
| Database.NormalizeWithoutId | database.py:16-18 | With no identifier in the parsed path, the URL is returned unchanged. |
| Database.NormalizeWithId | database.py:16-25 | With the first match at `j`, the result parses to the input's scheme and host, the path `/dp/` plus the ten characters found (even after `gp/product`), and empty parameters, query and fragment. |
| Database.CanonicalRoundTrip | database.py:23-25 | The rebuilt URL parses back to exactly the canonical record. |
| Database.NormalizeIdempotent | database.py:8-25 | Normalising a normalised URL changes nothing. |
| Database.NormalizeIgnoresQueryAndFragment | database.py:13-25 | Two URLs with the same scheme, host and identifier-bearing path normalise alike, whatever their parameters, query and fragment. |
| Database.NormalizeDropsQuery | database.py:25 | A product URL with a query or fragment normalises to the same URL without them. |
| Seqs.MaxKey | database.py:43 | The largest rowid in use, or 0 for an empty table. It is at least every key, and it is one of the keys when positive. |
| Database.WithTitle | database.py:150 | The table keeps its length and its order. Exactly the rows with that id get the new title, and every row keeps its id and URL. |
| Database.NewProduct | database.py:71 | The inserted row has the given URL and target, no title, and a rowid above every existing one. |
| Database.NewEntry | database.py:142-143 | The inserted history row has the given product, price and time, and a rowid above every existing one. |
| Database.FindProduct | tasks.py:23 | Finds the row with that id, and finds nothing exactly when no row has it. |
| Database.ProductsWithout | database.py:83 | A row is kept exactly when its id differs from the deleted one. |
| Database.HistoryWithout | database.py:57 | A history row is kept exactly when it belongs to another product. |
| Database.HistoryFor | database.py:133 | Exactly the product's history rows, each as often as stored, in ascending timestamp order. |
| Database.InsertByTime | database.py:133 | Inserting into a timestamp-ordered list keeps it ordered and adds exactly that row. |
| Database.SortByTime | database.py:133 | The result is ordered by timestamp and is a permutation of the input. |
| Database.InsertKeepsValid | database.py:42-47 | Inserting a URL not yet tracked keeps rowids increasing and URLs unique. |
| Database.DeleteKeepsValid | database.py:78-88 | Deleting a product and cascading to its history keeps every constraint. |
| Database.AppendKeepsValid | database.py:137-144 | Logging a price for an existing product keeps every constraint. |
| Database.WithTitleKeepsValid | database.py:146-151 | Setting a title keeps every constraint. |
| Database.DeleteCascades | database.py:57 | After a delete the product's history reads empty. Every other product's history is unchanged. |
| Database.DeleteAbsent | database.py:83 | Deleting an id no row has changes neither table. |
| Database.LogAddsOne | database.py:137-144 | A logged price adds exactly one entry to that product's history and none to any other product's. |
| Database.TitleSet | database.py:146-151 | After the update, the row with that id carries the new title. Every other row reads as before. |
| Database.Store.constructor | database.py:35-59 | Both tables start empty. |
| Database.Store.AddProduct | database.py:65-76 | The URL is stored normalised, with no title, under the next rowid. A URL already tracked is reported and changes nothing. A URL `urlparse` rejects changes nothing. The history is untouched. |
| Database.Store.DeleteProduct | database.py:78-88 | The product goes, and so do its history rows. The constraints hold afterwards. |
| Database.Store.LogPrice | database.py:137-144 | For an existing product, exactly one entry is appended and the products table is unchanged. For an unknown id, nothing changes. |
| Database.Store.UpdateProductTitle | database.py:146-151 | Only the title of the row with that id changes. The history is untouched. |
| Database.Store.GetProduct | tasks.py:23-26 | Returns the row with that id, or nothing exactly when no row has it. |
| Database.Store.GetProductPriceHistory | database.py:130-135 | Exactly the product's entries, in ascending timestamp order. |
| Database.AddTwice | database.py:44 | Adding the same URL twice inserts it once. The second add reports it as already tracked. |
| Database.DeleteThenRead | database.py:57 | After a logged product is deleted, its history reads empty. |
| Text.StripSpec | price_tracker.py:41 | `strip()` leaves no whitespace at either end. The result is empty only for all-whitespace text, and text without whitespace is unchanged. |
| Text.StripSlice | price_tracker.py:41 | `strip()` returns a slice of its input, and every character cut away before or after that slice is whitespace. |
| Page.JoinStripped | scraper.py:61 | `get_text(strip=True)` neither starts nor ends with whitespace, and it is empty exactly when every text node is blank. |
| Page.JoinStrippedAppend | scraper.py:61 | `get_text(strip=True)` works node by node, in document order. Two runs of nodes give the first run's text followed by the second's, and one node gives its own strip. |
| Page.StrippedSingle | scraper.py:61 | For an element with one text node, `get_text(strip=True)` equals `get_text().strip()`. |
| Decimal.ParseFloat | scraper.py:78 | `float()`. Its properties are stated by `Decimal.ParseFloatNeedsDigit`, `Decimal.FloatSkipsSpace`, `Decimal.FloatRefusesSeparator`, `Decimal.ParseInteger`, `Decimal.ParseDecimal`, `Decimal.ParseFraction` and `Decimal.ParseDigitsAndDots`. |
| Decimal.ParseFloatNeedsDigit | scraper.py:78 | `float()` refuses any text without a digit. |
| Decimal.FloatSkipsSpace | scraper.py:78 | `float()` ignores any runs of its whitespace (ASCII tab to carriage return, space, non-ASCII whitespace) before and after the text. What is left is parsed as it stands, for any text, signed or not. |
| Decimal.FloatRefusesSeparator | scraper.py:78 | A number after one of U+001C to U+001F is refused by `float()`, although `str.strip()` would remove that character. |
| Decimal.ParseInteger | scraper.py:78 | `float` of a digit string is its integer value. |
| Decimal.ParseDecimal | scraper.py:78 | `float(a + "." + b)` is `a` plus `b` read as a decimal fraction. |
| Decimal.ParseFraction | scraper.py:88 | `float("0." + d)` for digits `d` is `d` read as a fraction, which lies in [0, 1). |
| Decimal.FractionValueRatio | price_tracker.py:63 | The digits after the point are a numerator over a power of ten. |
| Decimal.ParseDigitsAndDots | price_tracker.py:63 | On text of digits and points only, `float` succeeds exactly when there is at least one digit and at most one point. |
| Scraper.NormalizeAmazonUrl | scraper.py:7-18 | With no match, the input is returned unchanged. With the leftmost match, the result is the fixed host, the marker as found, and the ten-character identifier. |
| Scraper.CanonicalSearch | scraper.py:13-17 | In a canonical URL the search finds the identifier right after the fixed host. |
| Scraper.NormalizeIdempotent | scraper.py:7-18 | Canonicalising a canonical URL changes nothing. |
| Scraper.CleanPriceText | scraper.py:76 | Exactly the commas and dollar signs are removed. Every other character is kept as often as it occurs. |
| Scraper.CleanPriceTextInOrder | scraper.py:76 | The removal works character by character and distributes over concatenation, so the kept characters keep their order. |
| Scraper.FirstTitle | scraper.py:52-62 | The title is the stripped text of the first selector that has an element, even if that text is empty. It is absent exactly when no selector has an element. |
| Scraper.FirstPrice | scraper.py:65-81 | The price comes from the first selector whose cleaned text parses, and every earlier selector yields nothing. It is absent exactly when no selector yields a price. |
| Scraper.WithFraction | scraper.py:84-91 | An absent or unparsable fraction element leaves the price as it is. |
| Scraper.FindTitle | scraper.py:58-62 | The `break` loop over the title selectors computes the title chain. |
| Scraper.FindPrice | scraper.py:73-81 | The `break`/`continue` loop over the price selectors computes the price chain. |
| Scraper.AddFraction | scraper.py:84-91 | The in-place `price += fraction` computes the fraction step. |
| Scraper.Scrape | scraper.py:20-93 | A failed fetch yields neither title nor price. A fetched page's title is the title chain's result. There is a price exactly when the page was fetched and the price chain found one. The chains are stated by `Scraper.FirstTitle`, `Scraper.FirstPrice` and `Scraper.ScrapedPrice`. |
| Scraper.ScrapeProductInfo | scraper.py:20-93 | The whole scrape computes the title chain, and the price chain followed by the fraction step. |
| Scraper.OtherSelectorIgnored | scraper.py:58-81 | What a selector outside a chain matches does not change that chain. |
| Scraper.FractionNotConsultedWithoutPrice | scraper.py:84 | Without a price, the price stays absent, and the fraction element's content does not affect the result. |
| Scraper.ScrapedPrice | scraper.py:84-89 | A found price goes through the fraction step, whichever selector produced it. |
| Scraper.FractionAdded | scraper.py:85-89 | A fraction element holding digits adds their value as a fraction. The price grows by less than one. |
| Scraper.WholePrice | scraper.py:68-79 | A whole-price text of digits and a trailing point gives the integer those digits spell. |
| Scraper.WholeAndFraction | scraper.py:67-91 | Whole text `a.` with fraction digits `b` scrapes to the decimal `a.b`. |
| PriceTracker.PriceString | price_tracker.py:47-59 | The price text: whole and fraction texts joined when both exist, else the off-screen text. `PriceTracker.WholeThenFraction` and `PriceTracker.CheckPrice` state how it is used. |
| PriceTracker.CleanPrice | price_tracker.py:62 | The result holds only digits and points, keeps every digit and point as often as it occurs, and holds nothing else. |
| PriceTracker.CleanPriceInOrder | price_tracker.py:62 | Cleaning works character by character and distributes over concatenation, so kept characters keep their order. |
| PriceTracker.CleanPriceIdempotent | price_tracker.py:62 | Cleaning a cleaned string changes nothing. |
| PriceTracker.CleanPriceCounts | price_tracker.py:62 | Cleaning keeps the number of digits and the number of points. |
| PriceTracker.CleanPriceParses | price_tracker.py:62-63 | The cleaned text parses exactly when the original holds at least one digit and at most one point. |
| PriceTracker.WholeThenFraction | price_tracker.py:47-51 | The whole and fraction texts are concatenated, not added: `a.` and `b` give the price `a.b`. |
| PriceTracker.FiftyNineNinetyNine | price_tracker.py:51-63 | Whole `59.` with fraction `99` yields 59.99. |
| PriceTracker.CheckPrice | price_tracker.py:14-78 | Each outcome happens exactly in its case: a failed fetch, a missing title (checked before any price work), no price string, and an unparsable price (no digit, or two points). Otherwise the outcome carries the stripped title and the parsed price. It is below target exactly when the price is strictly less than 400. |
| Tasks.Outbox.SendPriceAlert | tasks.py:43-48 | The alert is appended to those already sent. |
| Tasks.ScrapeAndNotify | tasks.py:11-48 | For a missing product, nothing is written or sent. For a missing price, nothing is written or sent. Otherwise exactly one history entry with that price is appended. An alert with the product's title, URL, the price and the target is sent exactly when the price is strictly below the target. The products table never changes. |
| Tasks.RecordPrice | tasks.py:36-48 | With a price in hand, exactly one history entry for the product is appended. The alert is sent exactly when the price is strictly below the target. The products table is unchanged and the table constraints still hold. |
| Tasks.RunTwice | tasks.py:37 | Two runs that both find a price append two entries for the product, each with the scraped price. There is no deduplication, and the products table is unchanged. |
| Tasks.CheckAfterDelete | tasks.py:23-26 | A run for a deleted product ends as product-missing, with no write and no alert. |

## Left out

- HTTP fetching and HTML parsing are inputs: a `Fetch` is a failure or a `Document`. CSS
  selector matching is not modelled: a document maps each selector the code uses to the
  first element it matches.
- `find(id="productTitle")` is the document entry `#productTitle`.
- SQLite itself (connections, SQL text, the `PRAGMA`) is not modelled; only the visible
  table semantics are.
- `get_all_products` and the latest-price join `get_all_products_with_latest_price` are
  not modelled. The join is query-engine behaviour, and its result on equal timestamps is
  not defined.
- `datetime.now()` is a parameter. Timestamps are integers, which order the same way as
  the fixed-width text the code stores.
- Float rounding, in `float()`, in `price += fraction` and in `:.2f` formatting, is not
  modelled. Prices are exact reals.
- Url.Parse: the last check `urlsplit` makes, `_checknetloc`, is not modelled. For a
  non-ASCII host it applies Unicode NFKC normalisation, and raises when that introduces
  `/`, `?`, `#`, `@` or `:`. The model accepts such hosts; no Unicode database is modelled.
  ASCII hosts are unaffected.
- Url.ParseUnparse: for the same reason the round trip is proved for every host that
  passes the bracket checks. In Python it also needs the host to pass the NFKC check,
  which every ASCII host does, and so does every host that `urlparse` has accepted once.
- Decimal.ParseFloat: accepts the decimal grammar only. `inf`, `nan`, digit-group
  underscores and non-ASCII digits are rejected, although Python's `float()` accepts them.
- Asin.Search: `\w` is ASCII letters, digits and `_`. Python's `\w` on `str` patterns
  also matches other Unicode word characters.
- PriceTracker.CleanPrice: `\d` is ASCII. Python also keeps other Unicode decimal digits,
  which `float()` accepts too.
- Text.IsSpace: whitespace is the code-point list of `str.isspace()`. No Unicode database
  is consulted.
- Database.SortByTime: entries with equal timestamps keep rowid order. This is one of the
  orders SQLite may return; SQL leaves that order unspecified.
- Celery task registration and dispatch are not modelled (queue plumbing).
- mailer.py is reduced to recording the alert in `Outbox`. Not modelled: credential
  checks, message formatting and SMTP delivery.
- config.py (environment loading) and app.py (web routes and forms) are not modelled.
- `print` logging is not modelled, nor the module-level double call of `check_price`.
- The declared `CheckOutcome` and `TaskOutcome` values name the branch taken. The source
  functions return nothing.
