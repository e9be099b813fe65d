/** The record store: URL canonicalisation before insertion, and the visible semantics of the
    `products` and `price_history` tables as an in-memory object. */
module Database {
  import opened Options
  import opened Seqs
  import opened Text
  import Asin
  import Url

  // ----- normalize_amazon_url -----

  /** The canonical record: scheme and host kept, the path rewritten to `/dp/<id>`,
      parameters, query and fragment dropped. */
  function CanonicalParts(p: Url.Parsed, id: string): Url.Parsed {
    Url.Parsed(p.scheme, p.netloc, "/dp/" + id, "", "", "")
  }

  /** `normalize_amazon_url`: the identifier is searched in the parsed path only; without
      one the input comes back unchanged. `urlparse` may raise, and then so does this. */
  function NormalizeAmazonUrl(url: string): (r: Result<string, Url.UrlError>)
    ensures r.Err? <==> Url.Parse(url).Err?
    ensures r.Err? ==> r.error == Url.Parse(url).error
  {
    match Url.Parse(url)
    case Err(e) => Err(e)
    case Ok(p) =>
      match Asin.Search(p.path)
      case None => Ok(url)
      case Some(m) => Ok(Url.Unparse(CanonicalParts(p, m.id)))
  }

  /** A path without any identifier occurrence leaves the URL as it was given. */
  lemma NormalizeWithoutId(url: string)
    requires Url.Parse(url).Ok?
    requires forall j :: 0 <= j <= |Url.Parse(url).value.path| ==>
               Asin.MatchAt(Url.Parse(url).value.path, j).None?
    ensures NormalizeAmazonUrl(url) == Ok(url)
  {
  }

  /** With an occurrence at `j` and none before it, the result parses to the input's scheme
      and host, the path `/dp/` plus the ten characters found there (also when the marker was
      `gp/product`), and empty parameters, query and fragment. */
  lemma NormalizeWithId(url: string, j: nat)
    requires Url.Parse(url).Ok?
    requires Asin.MatchAt(Url.Parse(url).value.path, j).Some?
    requires forall i :: 0 <= i < j ==> Asin.MatchAt(Url.Parse(url).value.path, i).None?
    ensures NormalizeAmazonUrl(url).Ok?
    ensures Url.Parse(NormalizeAmazonUrl(url).value)
         == Ok(Url.Parsed(Url.Parse(url).value.scheme, Url.Parse(url).value.netloc,
                          "/dp/" + Asin.MatchAt(Url.Parse(url).value.path, j).value.id,
                          "", "", ""))
  {
    var p := Url.Parse(url).value;
    var m := Asin.Search(p.path);
    assert m.Some? && m.value.start == j;
    Url.ParseWellFormed(url);
    CanonicalRoundTrip(p, m.value.id);
    assert NormalizeAmazonUrl(url) == Ok(Url.Unparse(CanonicalParts(p, m.value.id)));
  }

  lemma CanonicalPathPlain(id: string)
    requires |id| == Asin.IdLength && AllWordChars(id)
    ensures Url.PlainPath("/dp/" + id)
  {
    var path := "/dp/" + id;
    forall k | 0 <= k < |path| ensures path[k] !in "?#;" && !Url.IsUnsafe(path[k]) {
      if k >= 4 { assert path[k] == id[k - 4]; }
    }
  }

  /** The canonical record of a parsed URL survives `Unparse` then `Parse`. */
  lemma CanonicalRoundTrip(p: Url.Parsed, id: string)
    requires Url.SchemeOk(p.scheme) && Url.NetlocOk(p.netloc)
    requires |id| == Asin.IdLength && AllWordChars(id)
    ensures Url.Parse(Url.Unparse(CanonicalParts(p, id))) == Ok(CanonicalParts(p, id))
  {
    CanonicalPathPlain(id);
    Url.ParseUnparse(CanonicalParts(p, id));
  }

  lemma CanonicalPathSearch(id: string)
    requires |id| == Asin.IdLength && AllWordChars(id)
    ensures Asin.Search("/dp/" + id) == Some(Asin.Match(0, Asin.DirectMarker, id))
  {
    var path := "/dp/" + id;
    assert path[1..3] == Asin.DirectMarker;
    assert path[4..14] == id;
    assert Asin.PatternAt(path, 0, Asin.DirectMarker);
    Asin.SearchAtStart(path, Asin.DirectMarker);
  }

  /** Normalising a normalised URL changes nothing. */
  lemma NormalizeIdempotent(url: string)
    requires NormalizeAmazonUrl(url).Ok?
    ensures NormalizeAmazonUrl(NormalizeAmazonUrl(url).value) == NormalizeAmazonUrl(url)
  {
    var p := Url.Parse(url).value;
    match Asin.Search(p.path)
    case None =>
    case Some(m) =>
      Url.ParseWellFormed(url);
      var c := CanonicalParts(p, m.id);
      CanonicalRoundTrip(p, m.id);
      CanonicalPathSearch(m.id);
      assert CanonicalParts(c, m.id) == c;
  }

  /** URLs that agree on scheme, host and path normalise alike once the path holds an
      identifier, whatever their parameters, query strings and fragments. */
  lemma NormalizeIgnoresQueryAndFragment(u1: string, u2: string)
    requires Url.Parse(u1).Ok? && Url.Parse(u2).Ok?
    requires Url.Parse(u1).value.scheme == Url.Parse(u2).value.scheme
    requires Url.Parse(u1).value.netloc == Url.Parse(u2).value.netloc
    requires Url.Parse(u1).value.path == Url.Parse(u2).value.path
    requires Asin.Search(Url.Parse(u1).value.path).Some?
    ensures NormalizeAmazonUrl(u1) == NormalizeAmazonUrl(u2)
  {
  }

  /** A product URL with a tracking query string or fragment normalises to the same URL
      without them. */
  lemma NormalizeDropsQuery(scheme: string, netloc: string, id: string,
                            query: string, fragment: string)
    requires Url.SchemeOk(scheme) && Url.NetlocOk(netloc)
    requires |id| == Asin.IdLength && AllWordChars(id)
    requires Url.QueryOk(query) && Url.FragmentOk(fragment)
    ensures NormalizeAmazonUrl(Url.Unparse(Url.Parsed(scheme, netloc, "/dp/" + id, "", query, fragment)))
         == Ok(Url.Unparse(Url.Parsed(scheme, netloc, "/dp/" + id, "", "", "")))
  {
    var p := Url.Parsed(scheme, netloc, "/dp/" + id, "", query, fragment);
    CanonicalPathPlain(id);
    Url.ParseUnparse(p);
    CanonicalPathSearch(id);
  }

  // ----- The products and price_history tables -----

  /** A row of `products`; `title` is NULL until something sets it. */
  datatype Product = Product(id: int, url: string, targetPrice: real, title: Option<string>)

  /** A row of `price_history`. The timestamp is the second count of the formatted
      `%Y-%m-%d %H:%M:%S` text, whose fixed width makes text order chronological. */
  datatype PriceEntry = PriceEntry(id: int, productId: int, price: real, timestamp: int)

  /** What `add_product` does with a URL: insert it, swallow the UNIQUE violation, or let
      the `ValueError` of `urlparse` escape. */
  datatype AddOutcome = Added(id: int) | AlreadyTracked | InvalidUrl(error: Url.UrlError)

  function ProductKey(p: Product): int { p.id }

  function EntryKey(e: PriceEntry): int { e.id }

  predicate HasProduct(products: seq<Product>, id: int) {
    exists p :: p in products && p.id == id
  }

  predicate Tracked(products: seq<Product>, url: string) {
    exists p :: p in products && p.url == url
  }

  /** What the declared constraints guarantee: positive rowids in insertion order, unique
      URLs, and every history row pointing at an existing product. */
  ghost predicate TablesValid(products: seq<Product>, history: seq<PriceEntry>) {
    && StrictlyIncreasing(products, ProductKey)
    && (forall i :: 0 <= i < |products| ==> products[i].id >= 1)
    && (forall p, q :: p in products && q in products && p.url == q.url ==> p == q)
    && StrictlyIncreasing(history, EntryKey)
    && (forall e :: e in history ==> e.id >= 1 && HasProduct(products, e.productId))
  }

  /** The row with that id, if there is one. */
  function FindProduct(products: seq<Product>, id: int): (r: Option<Product>)
    ensures r.Some? ==> r.value in products && r.value.id == id
    ensures r.None? <==> !HasProduct(products, id)
  {
    if products == [] then None
    else if products[0].id == id then Some(products[0])
    else FindProduct(products[1..], id)
  }

  /** The row `add_product` inserts: the next rowid, the given URL and target, no title. */
  function NewProduct(products: seq<Product>, url: string, targetPrice: real): (r: Product)
    ensures r.url == url && r.targetPrice == targetPrice && r.title.None?
    ensures r.id >= 1 && forall i :: 0 <= i < |products| ==> products[i].id < r.id
  {
    Product(MaxKey(products, ProductKey) + 1, url, targetPrice, None)
  }

  /** The row `log_price` inserts. */
  function NewEntry(history: seq<PriceEntry>, productId: int, price: real, timestamp: int): (r: PriceEntry)
    ensures r.productId == productId && r.price == price && r.timestamp == timestamp
    ensures r.id >= 1 && forall i :: 0 <= i < |history| ==> history[i].id < r.id
  {
    PriceEntry(MaxKey(history, EntryKey) + 1, productId, price, timestamp)
  }

  function KeepsProduct(id: int): Product -> bool {
    (p: Product) => p.id != id
  }

  function KeepsEntry(id: int): PriceEntry -> bool {
    (e: PriceEntry) => e.productId != id
  }

  /** `DELETE FROM products WHERE id = ?` */
  function ProductsWithout(products: seq<Product>, id: int): (r: seq<Product>)
    ensures forall p :: p in r <==> p in products && p.id != id
  {
    Filter(products, KeepsProduct(id))
  }

  /** The `ON DELETE CASCADE` on `price_history`. */
  function HistoryWithout(history: seq<PriceEntry>, id: int): (r: seq<PriceEntry>)
    ensures forall e :: e in r <==> e in history && e.productId != id
  {
    Filter(history, KeepsEntry(id))
  }

  /** `UPDATE products SET title = ? WHERE id = ?` */
  function WithTitle(products: seq<Product>, id: int, title: string): (r: seq<Product>)
    ensures |r| == |products|
    ensures forall i :: 0 <= i < |r| ==>
              r[i] == if products[i].id == id then products[i].(title := Some(title)) else products[i]
    ensures forall i :: 0 <= i < |r| ==> r[i].id == products[i].id && r[i].url == products[i].url
  {
    if products == [] then []
    else
      var head := if products[0].id == id then products[0].(title := Some(title)) else products[0];
      [head] + WithTitle(products[1..], id, title)
  }

  ghost predicate SortedByTime(s: seq<PriceEntry>) {
    forall i, j :: 0 <= i < j < |s| ==> s[i].timestamp <= s[j].timestamp
  }

  /** Places `e` before the first entry that is not earlier than it. */
  function InsertByTime(e: PriceEntry, s: seq<PriceEntry>): (r: seq<PriceEntry>)
    requires SortedByTime(s)
    ensures SortedByTime(r)
    ensures multiset(r) == multiset(s) + multiset{e}
    ensures |r| == |s| + 1 && (r[0] == e || (s != [] && r[0] == s[0]))
  {
    if s == [] || e.timestamp <= s[0].timestamp then [e] + s
    else
      var rest := InsertByTime(e, s[1..]);
      assert s == [s[0]] + s[1..];
      assert s[0].timestamp <= rest[0].timestamp;
      [s[0]] + rest
  }

  /** `ORDER BY timestamp ASC`, as an insertion sort (equal timestamps keep their rowid order,
      one of the orders SQLite may return). */
  function SortByTime(s: seq<PriceEntry>): (r: seq<PriceEntry>)
    ensures SortedByTime(r)
    ensures multiset(r) == multiset(s)
  {
    if s == [] then []
    else
      assert s == [s[0]] + s[1..];
      InsertByTime(s[0], SortByTime(s[1..]))
  }

  function OfProduct(id: int): PriceEntry -> bool {
    (e: PriceEntry) => e.productId == id
  }

  /** `SELECT * FROM price_history WHERE product_id = ? ORDER BY timestamp ASC`: exactly
      the product's entries, each as often as it is stored, earliest first. */
  function HistoryFor(history: seq<PriceEntry>, id: int): (r: seq<PriceEntry>)
    ensures SortedByTime(r)
    ensures forall e :: multiset(r)[e] == if e.productId == id then multiset(history)[e] else 0
    ensures forall e :: e in r <==> e in history && e.productId == id
  {
    var r := SortByTime(Filter(history, OfProduct(id)));
    forall e ensures multiset(r)[e] == if e.productId == id then multiset(history)[e] else 0 {
      FilterCount(history, OfProduct(id), e);
    }
    r
  }

  // ----- The table constraints are kept by every statement -----

  /** Inserting a URL that is not yet tracked keeps the tables valid. */
  lemma InsertKeepsValid(products: seq<Product>, history: seq<PriceEntry>, url: string, targetPrice: real)
    requires TablesValid(products, history)
    requires !Tracked(products, url)
    ensures TablesValid(products + [NewProduct(products, url, targetPrice)], history)
  {
    var row := NewProduct(products, url, targetPrice);
    var after := products + [row];
    forall i, j | 0 <= i < j < |after| ensures after[i].id < after[j].id {
      if j < |products| {
        assert ProductKey(products[i]) < ProductKey(products[j]);
      }
    }
    forall e | e in history ensures HasProduct(after, e.productId) {
      var p :| p in products && p.id == e.productId;
      assert p in after;
    }
  }

  /** Deleting a product and, by the cascade, its history keeps the tables valid. */
  lemma DeleteKeepsValid(products: seq<Product>, history: seq<PriceEntry>, id: int)
    requires TablesValid(products, history)
    ensures TablesValid(ProductsWithout(products, id), HistoryWithout(history, id))
  {
    FilterIncreasing(products, KeepsProduct(id), ProductKey);
    FilterIncreasing(history, KeepsEntry(id), EntryKey);
    var left := ProductsWithout(products, id);
    forall i | 0 <= i < |left| ensures left[i].id >= 1 {
      assert left[i] in products;
    }
    forall e | e in HistoryWithout(history, id) ensures HasProduct(left, e.productId) {
      var p :| p in products && p.id == e.productId;
      assert p in left;
    }
  }

  /** Appending an entry for an existing product keeps the tables valid. */
  lemma AppendKeepsValid(products: seq<Product>, history: seq<PriceEntry>,
                         productId: int, price: real, timestamp: int)
    requires TablesValid(products, history)
    requires HasProduct(products, productId)
    ensures TablesValid(products, history + [NewEntry(history, productId, price, timestamp)])
  {
    var after := history + [NewEntry(history, productId, price, timestamp)];
    forall i, j | 0 <= i < j < |after| ensures after[i].id < after[j].id {
      if j < |history| {
        assert EntryKey(history[i]) < EntryKey(history[j]);
      }
    }
  }

  /** Setting a title keeps the tables valid. */
  lemma WithTitleKeepsValid(products: seq<Product>, history: seq<PriceEntry>, id: int, title: string)
    requires TablesValid(products, history)
    ensures TablesValid(WithTitle(products, id, title), history)
  {
    var after := WithTitle(products, id, title);
    WithTitleKeepsKeys(products, id, title);
    WithTitleKeepsUrlsUnique(products, id, title);
    forall e | e in history ensures HasProduct(after, e.productId) {
      WithTitleKeepsIds(products, id, title, e.productId);
    }
  }

  lemma WithTitleKeepsKeys(products: seq<Product>, id: int, title: string)
    requires StrictlyIncreasing(products, ProductKey)
    ensures StrictlyIncreasing(WithTitle(products, id, title), ProductKey)
  {
    var after := WithTitle(products, id, title);
    forall i, j | 0 <= i < j < |after| ensures ProductKey(after[i]) < ProductKey(after[j]) {
      assert ProductKey(products[i]) < ProductKey(products[j]);
    }
  }

  lemma WithTitleKeepsUrlsUnique(products: seq<Product>, id: int, title: string)
    requires forall p, q :: p in products && q in products && p.url == q.url ==> p == q
    ensures forall p, q ::
              (p in WithTitle(products, id, title) && q in WithTitle(products, id, title) && p.url == q.url)
              ==> p == q
  {
    var after := WithTitle(products, id, title);
    forall p, q | p in after && q in after && p.url == q.url ensures p == q {
      var i :| 0 <= i < |after| && after[i] == p;
      var j :| 0 <= j < |after| && after[j] == q;
      assert products[i] in products && products[j] in products;
      assert products[i] == products[j];
    }
  }

  lemma WithTitleKeepsIds(products: seq<Product>, id: int, title: string, pid: int)
    requires HasProduct(products, pid)
    ensures HasProduct(WithTitle(products, id, title), pid)
  {
    var after := WithTitle(products, id, title);
    var p :| p in products && p.id == pid;
    var i :| 0 <= i < |products| && products[i] == p;
    assert after[i] in after && after[i].id == p.id;
  }

  // ----- What each statement does to the visible rows -----

  /** Deleting a product leaves no history for it and the history of every other product
      as it was. */
  lemma DeleteCascades(history: seq<PriceEntry>, id: int, other: int)
    requires other != id
    ensures HistoryFor(HistoryWithout(history, id), id) == []
    ensures multiset(HistoryFor(HistoryWithout(history, id), other)) == multiset(HistoryFor(history, other))
  {
    var left := HistoryWithout(history, id);
    forall e ensures multiset(HistoryFor(left, other))[e] == multiset(HistoryFor(history, other))[e] {
      FilterCount(history, KeepsEntry(id), e);
    }
  }

  /** Deleting an id that is not in the table changes neither table. */
  lemma DeleteAbsent(products: seq<Product>, history: seq<PriceEntry>, id: int)
    requires TablesValid(products, history)
    requires !HasProduct(products, id)
    ensures ProductsWithout(products, id) == products
    ensures HistoryWithout(history, id) == history
  {
    forall i | 0 <= i < |products| ensures KeepsProduct(id)(products[i]) {
      assert products[i] in products;
    }
    FilterAllKept(products, KeepsProduct(id));
    forall i | 0 <= i < |history| ensures KeepsEntry(id)(history[i]) {
      assert history[i] in history;
    }
    FilterAllKept(history, KeepsEntry(id));
  }

  /** A logged price adds exactly one entry to that product's history and nothing to any
      other product's. */
  lemma LogAddsOne(history: seq<PriceEntry>, productId: int, price: real, timestamp: int, other: int)
    ensures multiset(HistoryFor(history + [NewEntry(history, productId, price, timestamp)], productId))
         == multiset(HistoryFor(history, productId)) + multiset{NewEntry(history, productId, price, timestamp)}
    ensures other != productId ==>
              HistoryFor(history + [NewEntry(history, productId, price, timestamp)], other)
              == HistoryFor(history, other)
  {
    var e := NewEntry(history, productId, price, timestamp);
    FilterAppend(history, [e], OfProduct(productId));
    FilterAppend(history, [e], OfProduct(other));
    assert Filter([e], OfProduct(productId)) == [e];
    if other != productId {
      assert Filter([e], OfProduct(other)) == [];
      assert Filter(history, OfProduct(other)) + [] == Filter(history, OfProduct(other));
    }
  }

  /** In a table with increasing ids, the row found for an id is the row holding it. */
  lemma {:induction false} FindUnique(products: seq<Product>, p: Product)
    requires StrictlyIncreasing(products, ProductKey)
    requires p in products
    ensures FindProduct(products, p.id) == Some(p)
  {
    if products[0] != p {
      var k :| 0 <= k < |products| && products[k] == p;
      assert k > 0;
      assert ProductKey(products[0]) < ProductKey(products[k]);
      assert p in products[1..] by { assert products[1..][k - 1] == p; }
      assert StrictlyIncreasing(products[1..], ProductKey) by {
        forall i, j | 0 <= i < j < |products[1..]|
          ensures ProductKey(products[1..][i]) < ProductKey(products[1..][j])
        {
          assert ProductKey(products[i + 1]) < ProductKey(products[j + 1]);
        }
      }
      FindUnique(products[1..], p);
    }
  }

  /** Setting a title changes that row's title and no other column or row. */
  lemma TitleSet(products: seq<Product>, id: int, title: string, other: int)
    requires StrictlyIncreasing(products, ProductKey)
    ensures FindProduct(WithTitle(products, id, title), id)
         == if HasProduct(products, id) then Some(FindProduct(products, id).value.(title := Some(title)))
            else None
    ensures other != id ==> FindProduct(WithTitle(products, id, title), other) == FindProduct(products, other)
  {
    var after := WithTitle(products, id, title);
    assert StrictlyIncreasing(after, ProductKey) by {
      forall i, j | 0 <= i < j < |after| ensures ProductKey(after[i]) < ProductKey(after[j]) {
        assert ProductKey(products[i]) < ProductKey(products[j]);
      }
    }
    assert HasProduct(after, id) == HasProduct(products, id) by { SameIds(products, after, id); }
    if HasProduct(products, id) {
      var p := FindProduct(products, id).value;
      var i :| 0 <= i < |products| && products[i] == p;
      FindUnique(after, after[i]);
    }
    if other != id {
      assert HasProduct(after, other) == HasProduct(products, other) by { SameIds(products, after, other); }
      if HasProduct(products, other) {
        var q := FindProduct(products, other).value;
        var j :| 0 <= j < |products| && products[j] == q;
        FindUnique(after, after[j]);
      }
    }
  }

  /** Two tables with the same id in every position hold the same ids. */
  lemma SameIds(a: seq<Product>, b: seq<Product>, id: int)
    requires |a| == |b| && forall i :: 0 <= i < |a| ==> a[i].id == b[i].id
    ensures HasProduct(a, id) == HasProduct(b, id)
  {
    if HasProduct(a, id) {
      var p :| p in a && p.id == id;
      var i :| 0 <= i < |a| && a[i] == p;
      assert b[i] in b;
    }
    if HasProduct(b, id) {
      var p :| p in b && p.id == id;
      var i :| 0 <= i < |b| && b[i] == p;
      assert a[i] in a;
    }
  }

  // ----- The store -----

  /** The `products` and `price_history` tables, rows in rowid order. */
  class Store {
    var products: seq<Product>
    var history: seq<PriceEntry>

    ghost predicate Valid()
      reads this
    {
      TablesValid(products, history)
    }

    /** `init_db`: both tables empty. */
    constructor()
      ensures Valid()
      ensures products == [] && history == []
    {
      products := [];
      history := [];
    }

    /** `add_product`: the URL is normalised first; a URL already tracked leaves the table
        as it was, and a URL `urlparse` rejects changes nothing either. */
    method AddProduct(url: string, targetPrice: real) returns (outcome: AddOutcome)
      requires Valid()
      modifies this
      ensures Valid()
      ensures history == old(history)
      ensures match NormalizeAmazonUrl(url)
        case Err(e) => outcome == InvalidUrl(e) && products == old(products)
        case Ok(clean) =>
          if Tracked(old(products), clean) then
            outcome == AlreadyTracked && products == old(products)
          else
            var row := NewProduct(old(products), clean, targetPrice);
            outcome == Added(row.id) && products == old(products) + [row]
    {
      var normalized := NormalizeAmazonUrl(url);
      match normalized
      case Err(e) =>
        outcome := InvalidUrl(e);
      case Ok(clean) =>
        if Tracked(products, clean) {
          outcome := AlreadyTracked;
        } else {
          var row := NewProduct(products, clean, targetPrice);
          InsertKeepsValid(products, history, clean, targetPrice);
          products := products + [row];
          outcome := Added(row.id);
        }
    }

    /** `delete_product`: the row goes, and with it every history entry of that product. */
    method DeleteProduct(id: int)
      requires Valid()
      modifies this
      ensures Valid()
      ensures products == ProductsWithout(old(products), id)
      ensures history == HistoryWithout(old(history), id)
    {
      DeleteKeepsValid(products, history, id);
      products := ProductsWithout(products, id);
      history := HistoryWithout(history, id);
    }

    /** `log_price`: one entry appended; for an id with no product the foreign key rejects
        the insert, `logged` is false and nothing changes. */
    method LogPrice(productId: int, price: real, timestamp: int) returns (logged: bool)
      requires Valid()
      modifies this
      ensures Valid()
      ensures logged == HasProduct(old(products), productId)
      ensures products == old(products)
      ensures history == if logged then old(history) + [NewEntry(old(history), productId, price, timestamp)]
                         else old(history)
    {
      logged := FindProduct(products, productId).Some?;
      if logged {
        AppendKeepsValid(products, history, productId, price, timestamp);
        history := history + [NewEntry(history, productId, price, timestamp)];
      }
    }

    /** `update_product_title`: the title of the row with that id, if any. */
    method UpdateProductTitle(id: int, title: string)
      requires Valid()
      modifies this
      ensures Valid()
      ensures products == WithTitle(old(products), id, title)
      ensures history == old(history)
    {
      WithTitleKeepsValid(products, history, id, title);
      products := WithTitle(products, id, title);
    }

    /** The row with that id, as `scrape_and_notify` reads it. */
    function GetProduct(id: int): (r: Option<Product>)
      reads this
      ensures r.Some? ==> r.value in products && r.value.id == id
      ensures r.None? <==> !HasProduct(products, id)
    {
      FindProduct(products, id)
    }

    /** `get_product_price_history`: that product's entries, earliest first. */
    function GetProductPriceHistory(id: int): (r: seq<PriceEntry>)
      reads this
      ensures SortedByTime(r)
      ensures forall e :: multiset(r)[e] == if e.productId == id then multiset(history)[e] else 0
    {
      HistoryFor(history, id)
    }
  }

  /** Adding the same link twice tracks it once. */
  method AddTwice(url: string, targetPrice: real) returns (first: AddOutcome, second: AddOutcome)
    requires NormalizeAmazonUrl(url).Ok?
    ensures first.Added? && second == AlreadyTracked
  {
    var store := new Store();
    first := store.AddProduct(url, targetPrice);
    second := store.AddProduct(url, targetPrice + 1.0);
    assert store.products[0].url == NormalizeAmazonUrl(url).value;
    assert store.products[0] in store.products;
  }

  /** After a product is deleted its history reads empty, also when prices were logged for it. */
  method DeleteThenRead(url: string, price: real, timestamp: int) returns (rows: seq<PriceEntry>)
    requires NormalizeAmazonUrl(url).Ok?
    ensures rows == []
  {
    var store := new Store();
    var added := store.AddProduct(url, 10.0);
    var id := added.id;
    var logged := store.LogPrice(id, price, timestamp);
    assert logged by { assert store.products[0] in store.products; }
    store.DeleteProduct(id);
    rows := store.GetProductPriceHistory(id);
  }
}
