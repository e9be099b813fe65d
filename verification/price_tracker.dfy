/** The stand-alone checker: fetch one product page, read its title and price, and compare
    the price with a fixed target. */
module PriceTracker {
  import opened Options
  import opened Seqs
  import opened Text
  import opened Decimal
  import opened Page

  const TargetPrice: real := 400.0

  /** The element `find(id="productTitle")` returns. */
  const TitleId: string := "#productTitle"
  const WholeSelector: string := ".a-price-whole"
  const FractionSelector: string := ".a-price-fraction"
  const OffscreenSelector: string := "span.a-price span.a-offscreen"

  /** How a check ends. Only `Checked` reaches a verdict; `belowTarget` is the branch taken. */
  datatype CheckOutcome =
    | FetchError
    | NoTitle
    | NoPrice
    | Unparsable
    | Checked(title: string, price: real, belowTarget: bool)

  /** The price text: whole and fraction texts, each stripped, written one after the other
      when both elements exist; otherwise the off-screen price text as it is. */
  function PriceString(doc: Document): Option<string> {
    if WholeSelector in doc && FractionSelector in doc then
      Some(Strip(GetText(doc[WholeSelector])) + Strip(GetText(doc[FractionSelector])))
    else if OffscreenSelector in doc then
      Some(GetText(doc[OffscreenSelector]))
    else None
  }

  predicate IsPriceChar(c: char) { IsAsciiDigit(c) || c == '.' }

  /** `re.sub(r'[^\d.]', '', s)`: everything but digits and points goes. */
  function CleanPrice(s: string): (r: string)
    ensures forall k :: 0 <= k < |r| ==> IsPriceChar(r[k])
    ensures forall c :: IsPriceChar(c) ==> multiset(r)[c] == multiset(s)[c]
    ensures forall c :: !IsPriceChar(c) ==> c !in r
  {
    var r := Filter(s, IsPriceChar);
    assert forall k :: 0 <= k < |r| ==> r[k] in r;
    forall c | IsPriceChar(c) ensures multiset(r)[c] == multiset(s)[c] {
      FilterCount(s, IsPriceChar, c);
    }
    r
  }

  /** Cleaning works character by character: a price character stays, any other goes, and
      cleaning a concatenation cleans each part in place, so the kept characters keep their
      order. */
  lemma CleanPriceInOrder(a: string, b: string, c: char)
    ensures CleanPrice(a + b) == CleanPrice(a) + CleanPrice(b)
    ensures CleanPrice([c]) == if IsPriceChar(c) then [c] else []
  {
    FilterAppend(a, b, IsPriceChar);
    assert [c][1..] == [];
  }

  /** Cleaning a cleaned string changes nothing. */
  lemma CleanPriceIdempotent(s: string)
    ensures CleanPrice(CleanPrice(s)) == CleanPrice(s)
  {
    FilterAllKept(CleanPrice(s), IsPriceChar);
  }

  /** Cleaning keeps every digit and every point. */
  lemma CleanPriceCounts(s: string)
    ensures CountDigits(CleanPrice(s)) == CountDigits(s)
    ensures Count(CleanPrice(s), '.') == Count(s, '.')
  {
    FilterDigitsOfClean(s);
  }

  lemma {:induction false} FilterDigitsOfClean(s: string)
    ensures Filter(Filter(s, IsPriceChar), IsAsciiDigit) == Filter(s, IsAsciiDigit)
  {
    if s != [] {
      FilterDigitsOfClean(s[1..]);
    }
  }

  /** `float(CleanPrice(s))` succeeds exactly when `s` holds at least one digit and at most
      one point; any other character of `s` plays no part. */
  lemma CleanPriceParses(s: string)
    ensures ParseFloat(CleanPrice(s)).Some? <==> CountDigits(s) >= 1 && Count(s, '.') <= 1
  {
    ParseDigitsAndDots(CleanPrice(s));
    CleanPriceCounts(s);
  }

  /** Whole text `a.` and fraction text `b` are joined, not added: the price is `a.b`. */
  lemma WholeThenFraction(doc: Document, a: string, b: string)
    requires WholeSelector in doc && FractionSelector in doc
    requires Strip(GetText(doc[WholeSelector])) == a + "."
    requires Strip(GetText(doc[FractionSelector])) == b
    requires AllDigits(a) && AllDigits(b) && |a| >= 1
    ensures PriceString(doc) == Some(a + "." + b)
    ensures ParseFloat(CleanPrice(a + "." + b)) == Some(Mantissa(a, b))
  {
    var s := a + "." + b;
    forall k | 0 <= k < |s| ensures IsPriceChar(s[k]) {
      if k < |a| { assert s[k] == a[k]; }
      else if k > |a| { assert s[k] == b[k - |a| - 1]; }
    }
    FilterAllKept(s, IsPriceChar);
    ParseDecimal(a, b);
  }

  /** Whole `59.` and fraction `99` give 59.99. */
  lemma FiftyNineNinetyNine(doc: Document)
    requires WholeSelector in doc && doc[WholeSelector] == Element(["59."])
    requires FractionSelector in doc && doc[FractionSelector] == Element(["99"])
    ensures PriceString(doc).Some?
    ensures ParseFloat(CleanPrice(PriceString(doc).value)) == Some(59.99)
  {
    var a, b := "59", "99";
    assert AllDigits(a) && AllDigits(b);
    assert GetText(Element(["59."])) == a + "." by {
      assert ["59."][1..] == [];
    }
    assert GetText(Element(["99"])) == b by {
      assert ["99"][1..] == [];
    }
    StripDigitsAndDots(a + ".");
    StripDigitsAndDots(b);
    WholeThenFraction(doc, a, b);
    assert DigitsValue(a) == 59 by {
      assert a[..1] == "5" && "5"[..0] == [];
    }
    assert FractionValue(b) == 0.99 by {
      assert b[1..] == "9" && "9"[1..] == [];
    }
  }

  /** `check_price`, with the page fetch as its input. */
  method CheckPrice(page: Fetch) returns (r: CheckOutcome)
    ensures page.FetchFailed? <==> r == FetchError
    ensures page.Fetched? && TitleId !in page.doc <==> r == NoTitle
    ensures r == NoPrice <==> page.Fetched? && TitleId in page.doc && PriceString(page.doc).None?
    ensures r == Unparsable
        <==> && page.Fetched? && TitleId in page.doc && PriceString(page.doc).Some?
             && !(CountDigits(PriceString(page.doc).value) >= 1
                  && Count(PriceString(page.doc).value, '.') <= 1)
    ensures r.Checked? ==> && page.Fetched? && TitleId in page.doc
                           && r.title == Strip(GetText(page.doc[TitleId]))
                           && PriceString(page.doc).Some?
                           && ParseFloat(CleanPrice(PriceString(page.doc).value)) == Some(r.price)
    ensures r.Checked? ==> (r.belowTarget <==> r.price < TargetPrice)
  {
    if page.FetchFailed? {
      return FetchError;
    }
    var doc := page.doc;
    var titleElement := SelectOne(doc, TitleId);
    if titleElement.None? {
      return NoTitle;
    }
    var productTitle := Strip(GetText(titleElement.value));
    var wholeElement := SelectOne(doc, WholeSelector);
    var fractionElement := SelectOne(doc, FractionSelector);
    var priceStr;
    if wholeElement.Some? && fractionElement.Some? {
      priceStr := Strip(GetText(wholeElement.value)) + Strip(GetText(fractionElement.value));
    } else {
      var spanElement := SelectOne(doc, OffscreenSelector);
      if spanElement.Some? {
        priceStr := GetText(spanElement.value);
      } else {
        return NoPrice;
      }
    }
    assert PriceString(doc) == Some(priceStr);
    var cleaned := CleanPrice(priceStr);
    CleanPriceParses(priceStr);
    var parsed := ParseFloat(cleaned);
    if parsed.None? {
      return Unparsable;
    }
    var currentPrice := parsed.value;
    if currentPrice < TargetPrice {
      r := Checked(productTitle, currentPrice, true);
    } else {
      r := Checked(productTitle, currentPrice, false);
    }
  }
}
