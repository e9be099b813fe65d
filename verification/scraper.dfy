/** The product-page scraper: its own URL canonicaliser, and the title and price extraction
    of `scrape_product_info` as ordered fallback chains over the fetched document. Prices
    are exact decimals; `float()` is the decimal grammar of module Decimal. */
module Scraper {
  import opened Options
  import opened Seqs
  import opened Text
  import opened Decimal
  import opened Page
  import Asin

  // ----- _normalize_amazon_url -----

  const BaseUrl: string := "https://www.amazon.com.au"

  /** The whole string is searched; the host is fixed and the marker is kept as found. */
  function NormalizeAmazonUrl(url: string): (r: string)
    ensures (forall j :: 0 <= j <= |url| ==> Asin.MatchAt(url, j).None?) ==> r == url
    ensures forall j :: 0 <= j <= |url| && Asin.MatchAt(url, j).Some?
                        && (forall k :: 0 <= k < j ==> Asin.MatchAt(url, k).None?) ==>
              r == BaseUrl + "/" + Asin.MatchAt(url, j).value.marker + "/" + Asin.MatchAt(url, j).value.id
  {
    match Asin.Search(url)
    case None => url
    case Some(m) => BaseUrl + "/" + m.marker + "/" + m.id
  }

  /** No position of the fixed host starts an occurrence. */
  lemma BaseUrlHasNoMatch(s: string)
    requires |s| >= |BaseUrl| && s[..|BaseUrl|] == BaseUrl
    ensures forall j :: 0 <= j < |BaseUrl| ==> Asin.MatchAt(s, j).None?
  {
    forall j | 0 <= j < |BaseUrl| ensures Asin.MatchAt(s, j).None? {
      assert s[j] == BaseUrl[j];
      if j == 6 || j == 7 {
        assert s[j + 1] == BaseUrl[j + 1];
      }
    }
  }

  /** In a canonical URL the search finds the identifier right after the fixed host. */
  lemma CanonicalSearch(marker: string, id: string)
    requires marker == Asin.DirectMarker || marker == Asin.GroupedMarker
    requires |id| == Asin.IdLength && AllWordChars(id)
    ensures Asin.Search(BaseUrl + "/" + marker + "/" + id) == Some(Asin.Match(|BaseUrl|, marker, id))
  {
    var r := BaseUrl + "/" + marker + "/" + id;
    assert r[..|BaseUrl|] == BaseUrl;
    BaseUrlHasNoMatch(r);
    SearchAfterPrefix(BaseUrl, marker, id);
  }

  /** After a prefix where no occurrence starts, the search finds `/marker/id`. */
  lemma SearchAfterPrefix(prefix: string, marker: string, id: string)
    requires marker == Asin.DirectMarker || marker == Asin.GroupedMarker
    requires |id| == Asin.IdLength && AllWordChars(id)
    requires forall j :: 0 <= j < |prefix| ==> Asin.MatchAt(prefix + "/" + marker + "/" + id, j).None?
    ensures Asin.Search(prefix + "/" + marker + "/" + id) == Some(Asin.Match(|prefix|, marker, id))
  {
    var r := prefix + "/" + marker + "/" + id;
    MatchAfterPrefix(prefix, marker, id);
    var m := Asin.Search(r);
    assert m.Some?;
    assert m.value.start == |prefix|;
  }

  /** The pattern matches right after the prefix, with the marker and identifier given. */
  lemma MatchAfterPrefix(prefix: string, marker: string, id: string)
    requires marker == Asin.DirectMarker || marker == Asin.GroupedMarker
    requires |id| == Asin.IdLength && AllWordChars(id)
    ensures Asin.MatchAt(prefix + "/" + marker + "/" + id, |prefix|) == Some(Asin.Match(|prefix|, marker, id))
  {
    var r := prefix + "/" + marker + "/" + id;
    var n := |prefix|;
    assert Asin.PatternAt(r, n, marker) by {
      assert r[n + 1..n + 1 + |marker|] == marker;
      assert r[n + 2 + |marker|..n + 2 + |marker| + Asin.IdLength] == id;
    }
    assert Asin.IdAt(r, n, marker) == id;
    if marker == Asin.GroupedMarker {
      assert r[n + 1] == 'g';
      assert !Asin.PatternAt(r, n, Asin.DirectMarker);
    }
  }

  /** A canonical URL is its own canonical form. */
  lemma NormalizeIdempotent(url: string)
    ensures NormalizeAmazonUrl(NormalizeAmazonUrl(url)) == NormalizeAmazonUrl(url)
  {
    match Asin.Search(url)
    case None =>
    case Some(m) =>
      CanonicalSearch(m.marker, m.id);
  }

  // ----- scrape_product_info -----

  const TitleSelectors: seq<string> := ["span#productTitle", "h1#title span#productTitle"]

  const PriceSelectors: seq<string> := [
    "span.a-price-whole",
    "span#priceblock_ourprice",
    "span#priceblock_dealprice",
    "span.priceToPay span.a-price-whole"
  ]

  const FractionSelector: string := "span.a-price-fraction"

  datatype ScrapeResult = ScrapeResult(title: Option<string>, price: Option<real>)

  /** `.replace(',', '').replace('$', '')`: exactly the commas and dollar signs go. */
  function CleanPriceText(t: string): (r: string)
    ensures ',' !in r && '$' !in r
    ensures forall c :: c != ',' && c != '$' ==> multiset(r)[c] == multiset(t)[c]
  {
    RemoveChar(RemoveChar(t, ','), '$')
  }

  /** The two `replace` calls work character by character: a comma or a dollar sign goes,
      any other character stays, and cleaning a concatenation cleans each part in place, so
      the kept characters keep their order. */
  lemma CleanPriceTextInOrder(a: string, b: string, c: char)
    ensures CleanPriceText(a + b) == CleanPriceText(a) + CleanPriceText(b)
    ensures CleanPriceText([c]) == if c == ',' || c == '$' then [] else [c]
  {
    FilterAppend(a, b, d => d != ',');
    FilterAppend(RemoveChar(a, ','), RemoveChar(b, ','), d => d != '$');
    assert [c][1..] == [];
  }

  /** What one title selector yields: the stripped text of its element, which counts as
      found even when that text is empty. */
  function TitleAt(doc: Document, selector: string): Option<string> {
    if selector in doc then Some(GetTextStripped(doc[selector])) else None
  }

  /** The title chain: the first selector with an element. */
  function FirstTitle(doc: Document, selectors: seq<string>): (r: Option<string>)
    ensures r.None? <==> forall i :: 0 <= i < |selectors| ==> selectors[i] !in doc
    ensures r.Some? ==> exists i :: && 0 <= i < |selectors| && TitleAt(doc, selectors[i]) == r
                                    && forall k :: 0 <= k < i ==> selectors[k] !in doc
  {
    if selectors == [] then None
    else if selectors[0] in doc then
      var r := TitleAt(doc, selectors[0]);
      assert 0 < |selectors| && TitleAt(doc, selectors[0]) == r;
      r
    else
      var r := FirstTitle(doc, selectors[1..]);
      ChainStep(selectors, s => TitleAt(doc, s), r);
      assert forall i :: 0 <= i < |selectors| ==> (TitleAt(doc, selectors[i]).None? <==> selectors[i] !in doc);
      r
  }

  /** What one price selector yields: nothing when it matches no element or when its
      cleaned text is not a number. */
  function PriceAt(doc: Document, selector: string): Option<real> {
    if selector in doc then ParseFloat(CleanPriceText(GetTextStripped(doc[selector]))) else None
  }

  /** The price chain: the first selector that yields a price; a present element whose
      text does not parse is passed over like a missing one. */
  function FirstPrice(doc: Document, selectors: seq<string>): (r: Option<real>)
    ensures r.None? <==> forall i :: 0 <= i < |selectors| ==> PriceAt(doc, selectors[i]).None?
    ensures r.Some? ==> exists i :: && 0 <= i < |selectors| && PriceAt(doc, selectors[i]) == r
                                    && forall k :: 0 <= k < i ==> PriceAt(doc, selectors[k]).None?
  {
    if selectors == [] then None
    else if PriceAt(doc, selectors[0]).Some? then PriceAt(doc, selectors[0])
    else
      var r := FirstPrice(doc, selectors[1..]);
      ChainStep(selectors, s => PriceAt(doc, s), r);
      r
  }

  /** One step of a fallback chain: when the first selector yields nothing, what the rest
      of the chain yields is what the whole chain yields. */
  lemma ChainStep<T>(selectors: seq<string>, at: string -> Option<T>, r: Option<T>)
    requires selectors != [] && at(selectors[0]).None?
    requires r.None? <==> forall i :: 0 <= i < |selectors[1..]| ==> at(selectors[1..][i]).None?
    requires r.Some? ==> exists i :: && 0 <= i < |selectors[1..]| && at(selectors[1..][i]) == r
                                     && forall k :: 0 <= k < i ==> at(selectors[1..][k]).None?
    ensures r.None? <==> forall i :: 0 <= i < |selectors| ==> at(selectors[i]).None?
    ensures r.Some? ==> exists i :: && 0 <= i < |selectors| && at(selectors[i]) == r
                                    && forall k :: 0 <= k < i ==> at(selectors[k]).None?
  {
    var rest := selectors[1..];
    assert forall i :: 1 <= i < |selectors| ==> selectors[i] == rest[i - 1];
    if r.Some? {
      var j :| && 0 <= j < |rest| && at(rest[j]) == r
               && forall k :: 0 <= k < j ==> at(rest[k]).None?;
      assert at(selectors[j + 1]) == r;
      forall k | 0 <= k < j + 1 ensures at(selectors[k]).None? {
        if k > 0 { assert at(selectors[k]) == at(rest[k - 1]); }
      }
    } else {
      forall i | 0 <= i < |selectors| ensures at(selectors[i]).None? {
        if i > 0 { assert at(selectors[i]) == at(rest[i - 1]); }
      }
    }
  }

  /** The fraction step: `0.<text>` is added when the fraction element exists and that
      string parses; otherwise the price stays as it is. */
  function WithFraction(doc: Document, price: real): (r: real)
    ensures FractionSelector !in doc ==> r == price
    ensures FractionSelector in doc && ParseFloat("0." + GetTextStripped(doc[FractionSelector])).None?
            ==> r == price
  {
    match SelectOne(doc, FractionSelector)
    case None => price
    case Some(e) =>
      match ParseFloat("0." + GetTextStripped(e))
      case None => price
      case Some(fraction) => price + fraction
  }

  /** The fraction step, applied only when the chain found a price. */
  function AfterFraction(doc: Document, price: Option<real>): Option<real> {
    if price.Some? then Some(WithFraction(doc, price.value)) else None
  }

  /** What `scrape_product_info` returns for a fetch outcome: a failed fetch or an error
      status yields neither title nor price; a fetched page's title is the title chain's,
      and it has a price exactly when the price chain found one. */
  function Scrape(page: Fetch): (r: ScrapeResult)
    ensures page.FetchFailed? ==> r == ScrapeResult(None, None)
    ensures page.Fetched? ==> r.title == FirstTitle(page.doc, TitleSelectors)
    ensures r.price.Some? <==> page.Fetched? && FirstPrice(page.doc, PriceSelectors).Some?
  {
    match page
    case FetchFailed => ScrapeResult(None, None)
    case Fetched(doc) =>
      ScrapeResult(FirstTitle(doc, TitleSelectors), AfterFraction(doc, FirstPrice(doc, PriceSelectors)))
  }

  /** The title loop of `scrape_product_info`: stop at the first selector with an element. */
  method FindTitle(doc: Document) returns (title: Option<string>)
    ensures title == FirstTitle(doc, TitleSelectors)
  {
    title := None;
    for i := 0 to |TitleSelectors|
      invariant title.None?
      invariant FirstTitle(doc, TitleSelectors) == FirstTitle(doc, TitleSelectors[i..])
    {
      assert TitleSelectors[i..][1..] == TitleSelectors[i + 1..];
      var element := SelectOne(doc, TitleSelectors[i]);
      if element.Some? {
        title := Some(GetTextStripped(element.value));
        assert title == TitleAt(doc, TitleSelectors[i]);
        break;
      }
    }
  }

  /** The price loop: `break` at the first text that parses, `continue` past one that
      does not. */
  method FindPrice(doc: Document) returns (price: Option<real>)
    ensures price == FirstPrice(doc, PriceSelectors)
  {
    price := None;
    for i := 0 to |PriceSelectors|
      invariant price.None?
      invariant FirstPrice(doc, PriceSelectors) == FirstPrice(doc, PriceSelectors[i..])
    {
      assert PriceSelectors[i..][1..] == PriceSelectors[i + 1..];
      var element := SelectOne(doc, PriceSelectors[i]);
      if element.Some? {
        var priceText := CleanPriceText(GetTextStripped(element.value));
        var parsed := ParseFloat(priceText);
        if parsed.Some? {
          price := parsed;
          break;
        } else {
          continue;
        }
      }
    }
  }

  /** `scrape_product_info`: nothing after a failed fetch; otherwise the two loops, then
      the fraction added in place when a price was found. */
  method ScrapeProductInfo(page: Fetch) returns (r: ScrapeResult)
    ensures r == Scrape(page)
  {
    if page.FetchFailed? {
      return ScrapeResult(None, None);
    }
    var doc := page.doc;
    var title := FindTitle(doc);
    var price := FindPrice(doc);
    if price.Some? {
      var total := AddFraction(doc, price.value);
      price := Some(total);
    }
    r := ScrapeResult(title, price);
  }

  /** The fraction step: `price += float(f"0.{text}")`, skipped when the element is
      missing or the string does not parse. */
  method AddFraction(doc: Document, price: real) returns (total: real)
    ensures total == WithFraction(doc, price)
  {
    total := price;
    var fractionElement := SelectOne(doc, FractionSelector);
    if fractionElement.Some? {
      var text := "0." + GetTextStripped(fractionElement.value);
      var fraction := ParseFloat(text);
      assert fractionElement == Some(doc[FractionSelector]);
      if fraction.Some? {
        total := total + fraction.value;
      }
    }
  }

  // ----- Properties of the chains -----

  /** Changing what a selector outside a chain matches does not change the chain. */
  lemma {:induction false} OtherSelectorIgnored(doc: Document, selectors: seq<string>, key: string, e: Element)
    requires key !in selectors
    ensures FirstTitle(doc[key := e], selectors) == FirstTitle(doc, selectors)
    ensures FirstPrice(doc[key := e], selectors) == FirstPrice(doc, selectors)
  {
    if selectors != [] {
      assert selectors[0] != key;
      assert PriceAt(doc[key := e], selectors[0]) == PriceAt(doc, selectors[0]);
      OtherSelectorIgnored(doc, selectors[1..], key, e);
    }
  }

  /** Without a price the fraction element is never consulted: whatever it holds, the
      result is the same, and the price is absent. */
  lemma FractionNotConsultedWithoutPrice(doc: Document, e: Element)
    requires FirstPrice(doc, PriceSelectors).None?
    ensures Scrape(Fetched(doc)).price.None?
    ensures Scrape(Fetched(doc[FractionSelector := e])) == Scrape(Fetched(doc))
  {
    OtherSelectorIgnored(doc, PriceSelectors, FractionSelector, e);
    OtherSelectorIgnored(doc, TitleSelectors, FractionSelector, e);
  }

  /** With a price found, the result's price is that price after the fraction step,
      whichever selector produced it. */
  lemma ScrapedPrice(doc: Document, price: real)
    requires FirstPrice(doc, PriceSelectors) == Some(price)
    ensures Scrape(Fetched(doc)).price == Some(WithFraction(doc, price))
  {
  }

  /** A fraction element holding digits adds their value as a decimal fraction: the price
      grows by less than one. */
  lemma FractionAdded(doc: Document, price: real, digits: string)
    requires FractionSelector in doc && GetTextStripped(doc[FractionSelector]) == digits
    requires AllDigits(digits)
    ensures WithFraction(doc, price) == price + FractionValue(digits)
    ensures price <= WithFraction(doc, price) < price + 1.0
  {
    ParseFraction(digits);
  }

  /** The price text of the first selector, when it is digits and a trailing point, gives
      the integer they spell. */
  lemma WholePrice(doc: Document, whole: string)
    requires AllDigits(whole) && |whole| >= 1
    requires PriceSelectors[0] in doc && GetTextStripped(doc[PriceSelectors[0]]) == whole + "."
    ensures FirstPrice(doc, PriceSelectors) == Some(DigitsValue(whole) as real)
  {
    var text := whole + ".";
    assert CleanPriceText(text) == text by {
      forall k | 0 <= k < |text| ensures text[k] != ',' && text[k] != '$' {
        if k < |whole| { assert text[k] == whole[k]; }
      }
      Seqs.FilterAllKept(text, d => d != ',');
      Seqs.FilterAllKept(text, d => d != '$');
    }
    assert ParseFloat(text) == Some(DigitsValue(whole) as real) by {
      assert text == whole + "." + [];
      ParseDecimal(whole, []);
      IntegerMantissa(whole);
    }
    assert PriceAt(doc, PriceSelectors[0]) == Some(DigitsValue(whole) as real);
  }

  /** A price element holding digits and a trailing point, with a fraction element holding
      digits, yields the decimal the two spell together. */
  lemma WholeAndFraction(doc: Document, whole: string, digits: string)
    requires AllDigits(whole) && |whole| >= 1 && AllDigits(digits)
    requires PriceSelectors[0] in doc && GetTextStripped(doc[PriceSelectors[0]]) == whole + "."
    requires FractionSelector in doc && GetTextStripped(doc[FractionSelector]) == digits
    ensures Scrape(Fetched(doc)).price == Some(Mantissa(whole, digits))
  {
    var p := DigitsValue(whole) as real;
    var q := Mantissa(whole, digits);
    assert FirstPrice(doc, PriceSelectors) == Some(p) by { WholePrice(doc, whole); }
    assert WithFraction(doc, p) == q by { FractionAdded(doc, p, digits); }
    ScrapedPrice(doc, p);
  }
}
