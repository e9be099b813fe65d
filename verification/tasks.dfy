/** The background check of one tracked product: read its row, scrape its page, log the
    price and send an alert when the price is below the product's target. */
module Tasks {
  import opened Options
  import opened Page
  import opened Database
  import Scraper

  /** What the notifier is given: the product's title (null until set), its URL, the
      price just scraped and the product's target. */
  datatype Alert = Alert(productTitle: Option<string>, productUrl: string, newPrice: real, targetPrice: real)

  /** The alerts handed to the notifier, in the order they were sent. */
  class Outbox {
    var sent: seq<Alert>

    constructor()
      ensures sent == []
    {
      sent := [];
    }

    method SendPriceAlert(alert: Alert)
      modifies this
      ensures sent == old(sent) + [alert]
    {
      sent := sent + [alert];
    }
  }

  /** How a run ends: no such product, no price on the page, or a price recorded (and
      whether an alert went out). */
  datatype TaskOutcome = ProductMissing | PriceMissing | Recorded(alerted: bool)

  /** `scrape_and_notify(product_id)`, with the fetched page and the current time as
      inputs. The products table is never written. */
  method ScrapeAndNotify(db: Store, outbox: Outbox, productId: int, page: Fetch, now: int)
    returns (outcome: TaskOutcome)
    requires db.Valid()
    modifies db, outbox
    ensures db.Valid()
    ensures db.products == old(db.products)
    ensures old(db.GetProduct(productId)).None? ==>
              && outcome == ProductMissing
              && db.history == old(db.history) && outbox.sent == old(outbox.sent)
    ensures old(db.GetProduct(productId)).Some? && Scraper.Scrape(page).price.None? ==>
              && outcome == PriceMissing
              && db.history == old(db.history) && outbox.sent == old(outbox.sent)
    ensures old(db.GetProduct(productId)).Some? && Scraper.Scrape(page).price.Some? ==>
              var product, price := old(db.GetProduct(productId)).value, Scraper.Scrape(page).price.value;
              && db.history == old(db.history) + [NewEntry(old(db.history), productId, price, now)]
              && outcome == Recorded(price < product.targetPrice)
              && outbox.sent == old(outbox.sent)
                                + if price < product.targetPrice
                                  then [Alert(product.title, product.url, price, product.targetPrice)]
                                  else []
  {
    var found := db.GetProduct(productId);
    if found.None? {
      return ProductMissing;
    }
    var product := found.value;
    var scraped := Scraper.ScrapeProductInfo(page);
    var currentPrice := scraped.price;
    if currentPrice.None? {
      return PriceMissing;
    }
    var alerted := RecordPrice(db, outbox, product, currentPrice.value, now);
    outcome := Recorded(alerted);
  }

  /** The end of `scrape_and_notify` once a price is in hand: log it against the product,
      then alert when it is below the product's target. */
  method RecordPrice(db: Store, outbox: Outbox, product: Product, price: real, now: int)
    returns (alerted: bool)
    requires db.Valid() && db.GetProduct(product.id) == Some(product)
    modifies db, outbox
    ensures db.Valid()
    ensures db.products == old(db.products)
    ensures db.history == old(db.history) + [NewEntry(old(db.history), product.id, price, now)]
    ensures alerted == (price < product.targetPrice)
    ensures outbox.sent == old(outbox.sent)
                           + if alerted then [Alert(product.title, product.url, price, product.targetPrice)] else []
  {
    var logged := db.LogPrice(product.id, price, now);
    alerted := price < product.targetPrice;
    if alerted {
      outbox.SendPriceAlert(Alert(product.title, product.url, price, product.targetPrice));
    }
  }

  /** Two runs that both find a price append two entries: there is no deduplication. */
  method RunTwice(db: Store, outbox: Outbox, productId: int, page: Fetch, first: int, second: int)
    requires db.Valid()
    requires db.GetProduct(productId).Some? && Scraper.Scrape(page).price.Some?
    modifies db, outbox
    ensures |db.history| == |old(db.history)| + 2
    ensures db.history[|db.history| - 2].productId == productId
    ensures db.history[|db.history| - 1].productId == productId
    ensures db.history[|db.history| - 2].price == Scraper.Scrape(page).price.value
    ensures db.history[|db.history| - 1].price == Scraper.Scrape(page).price.value
    ensures db.products == old(db.products)
  {
    var a := ScrapeAndNotify(db, outbox, productId, page, first);
    assert db.GetProduct(productId).Some?;
    var b := ScrapeAndNotify(db, outbox, productId, page, second);
  }

  /** A product deleted before its scheduled check is skipped without a write or an alert. */
  method CheckAfterDelete(url: string, target: real, page: Fetch, now: int)
    returns (outcome: TaskOutcome, alerts: seq<Alert>, rows: seq<PriceEntry>)
    requires NormalizeAmazonUrl(url).Ok?
    ensures outcome == ProductMissing && alerts == [] && rows == []
  {
    var db := new Store();
    var outbox := new Outbox();
    var added := db.AddProduct(url, target);
    db.DeleteProduct(added.id);
    outcome := ScrapeAndNotify(db, outbox, added.id, page, now);
    alerts := outbox.sent;
    rows := db.history;
  }
}
