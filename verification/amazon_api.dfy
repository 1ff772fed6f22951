/** The data logic of `AmazonAPI`: identifiers from product links, the
    canonical product URL, the price-range query fragment, the two-tier
    price lookup, and the assembly and filtering of product records. The
    browser is replaced by a `Site`: the page served for each URL, given as
    the texts of the elements the tracker looks up. */
module AmazonApi {
  import opened Wrappers
  import opened PyStr
  import opened PriceParser

  /** The texts of the product-page elements the tracker reads. A field is
      `None` when the lookup raises `NoSuchElementException`. */
  datatype Page = Page(
    productTitle: Option<string>,        // element id `productTitle`
    bylineInfo: Option<string>,          // element id `bylineInfo`
    priceblockOurprice: Option<string>,  // element id `priceblock_ourprice`
    availability: Option<string>,        // element id `availability`
    olpPaddingRight: Option<string>)     // first element of class `olp-padding-right`

  /** What the browser shows for each URL it is sent to. */
  type Site = string -> Page

  /** The price range of the search, as decimal strings. */
  datatype Filters = Filters(min: string, max: string)

  /** One entry of the report's product list. */
  datatype Product = Product(asin: string, url: string, title: string, seller: string, price: real)

  const DpMarker := "/dp/"
  const RefMarker := "/ref"
  const FilterPrefix := "&rh=p_36%3A"
  const LanguageQuery := "?language=en_GB"
  const AvailableWord := "Available"

  /** Python truthiness of a looked-up text: present and non-empty. */
  predicate HasText(o: Option<string>)
  {
    o.Some? && o.value != []
  }

  // ---------------------------------------------------------------------
  // get_asin, shorten_url
  // ---------------------------------------------------------------------

  /** `get_asin`: `link[link.find('/dp/') + 4 : link.find('/ref')]`, with
      the -1 of a missing marker fed into the slice unchanged. */
  function GetAsin(link: string): (r: string)
    ensures |r| <= |link|
    ensures Contains(link, RefMarker) && Find(link, RefMarker) <= Find(link, DpMarker) + 4 ==> r == []
  {
    Slice(link, Find(link, DpMarker) + 4, Find(link, RefMarker))
  }

  /** `get_asins`: one identifier per link, in link order. */
  function GetAsins(links: seq<string>): (r: seq<string>)
    ensures |r| == |links|
    ensures forall i :: 0 <= i < |links| ==> r[i] == GetAsin(links[i])
  {
    seq(|links|, i requires 0 <= i < |links| => GetAsin(links[i]))
  }

  /** `shorten_url`: the canonical product URL. */
  function ShortenUrl(baseUrl: string, asin: string): (r: string)
    ensures |r| == |baseUrl| + 3 + |asin|
    ensures r[..|baseUrl|] == baseUrl && r[|baseUrl| + 3..] == asin
    ensures r[|baseUrl|..|baseUrl| + 3] == "dp/"
  {
    baseUrl + "dp/" + asin
  }

  /** The URL `get_single_product_info` sends the browser to. */
  function ProductPageUrl(baseUrl: string, asin: string): string
  {
    ShortenUrl(baseUrl, asin) + LanguageQuery
  }

  /** A search-result link of the usual shape yields exactly the text
      between the first `/dp/` and the first `/ref`. */
  lemma GetAsinOfProductLink(prefix: string, asin: string, suffix: string)
    requires Clean(prefix, DpMarker) && Clean(prefix + DpMarker + asin, RefMarker)
    ensures GetAsin(prefix + DpMarker + asin + RefMarker + suffix) == asin
  {
    var link := prefix + DpMarker + asin + RefMarker + suffix;
    assert link == prefix + DpMarker + (asin + RefMarker + suffix);
    FindAfterClean(prefix, DpMarker, asin + RefMarker + suffix);
    assert link == (prefix + DpMarker + asin) + RefMarker + suffix;
    FindAfterClean(prefix + DpMarker + asin, RefMarker, suffix);
    assert link[|prefix| + 4..|prefix| + 4 + |asin|] == asin;
  }

  /** Without `/ref` the slice stops at `len - 1`: the last character of
      the text after `/dp/` is lost. */
  lemma GetAsinWithoutRef(prefix: string, rest: string)
    requires Clean(prefix, DpMarker) && |rest| > 0
    requires !Contains(prefix + DpMarker + rest, RefMarker)
    ensures GetAsin(prefix + DpMarker + rest) == rest[..|rest| - 1]
  {
    var link := prefix + DpMarker + rest;
    FindAfterClean(prefix, DpMarker, rest);
    assert link[|prefix| + 4..|link| - 1] == rest[..|rest| - 1];
  }

  /** Without `/dp/` the slice starts at index 3 (`-1 + 4`). */
  lemma GetAsinWithoutDp(prefix: string, rest: string)
    requires Clean(prefix, RefMarker)
    requires !Contains(prefix + RefMarker + rest, DpMarker)
    ensures GetAsin(prefix + RefMarker + rest) == if |prefix| > 3 then prefix[3..] else []
  {
    var link := prefix + RefMarker + rest;
    FindAfterClean(prefix, RefMarker, rest);
    if |prefix| > 3 {
      assert link[3..|prefix|] == prefix[3..];
    }
  }

  /** Without either marker the result is `link[3:-1]`. */
  lemma GetAsinWithoutMarkers(link: string)
    requires !Contains(link, DpMarker) && !Contains(link, RefMarker)
    ensures GetAsin(link) == if |link| > 4 then link[3..|link| - 1] else []
  {
  }

  /** Distinct identifiers give distinct canonical URLs. */
  lemma ShortenUrlInjective(baseUrl: string, a: string, b: string)
    requires ShortenUrl(baseUrl, a) == ShortenUrl(baseUrl, b)
    ensures a == b
  {
  }

  /** The canonical URL has no `/ref`, so `get_asin` cannot read it back:
      the identifier loses its last character. */
  lemma ShortUrlLosesLastCharacter(baseUrl: string, asin: string)
    requires |baseUrl| > 0 && baseUrl[|baseUrl| - 1] == '/'
    requires Clean(baseUrl[..|baseUrl| - 1], DpMarker) && |asin| > 0
    requires !Contains(ShortenUrl(baseUrl, asin), RefMarker)
    ensures GetAsin(ShortenUrl(baseUrl, asin)) == asin[..|asin| - 1]
  {
    var prefix := baseUrl[..|baseUrl| - 1];
    assert ShortenUrl(baseUrl, asin) == prefix + DpMarker + asin;
    GetAsinWithoutRef(prefix, asin);
  }

  // ---------------------------------------------------------------------
  // The price-range fragment built in __init__
  // ---------------------------------------------------------------------

  /** `self.price_filter`: `"00"` is appended to each bound as written. */
  function PriceFilter(f: Filters): (r: string)
    ensures |r| == |FilterPrefix| + |f.min| + |f.max| + 5
    ensures r[..|FilterPrefix|] == FilterPrefix
    ensures r[|FilterPrefix|..|FilterPrefix| + |f.min|] == f.min
    ensures r[|FilterPrefix| + |f.min|..|FilterPrefix| + |f.min| + 3] == "00-"
    ensures r[|r| - |f.max| - 2..|r| - 2] == f.max && r[|r| - 2..] == "00"
  {
    FilterPrefix + f.min + "00-" + f.max + "00"
  }

  /** Reads the bounds back out of a price-range fragment. */
  function ParsePriceFilter(s: string): Option<Filters>
  {
    if |s| < |FilterPrefix| || s[..|FilterPrefix|] != FilterPrefix then None
    else
      var body := s[|FilterPrefix|..];
      var i := Find(body, "-");
      if i < 2 || body[i - 2..i] != "00" || |body| < i + 3 || body[|body| - 2..] != "00" then None
      else Some(Filters(body[..i - 2], body[i + 1..|body| - 2]))
  }

  /** The fragment determines the bounds whenever the lower bound has no
      `-` in it. */
  lemma PriceFilterRoundTrip(f: Filters)
    requires '-' !in f.min
    ensures ParsePriceFilter(PriceFilter(f)) == Some(f)
  {
    var s := PriceFilter(f);
    var body := FilterBody(f);
    FilterSplitsAtPrefix(f);
    FilterBodyParts(f.min, f.max);
    assert s[|FilterPrefix|..] == body;
  }

  /** The part of the fragment after the fixed prefix. */
  function FilterBody(f: Filters): string
  {
    f.min + "00-" + f.max + "00"
  }

  /** The fragment is the fixed prefix followed by its body. */
  lemma FilterSplitsAtPrefix(f: Filters)
    ensures PriceFilter(f) == FilterPrefix + FilterBody(f)
  {
  }

  /** In the body, the first `-` is the one after the lower bound's `00`. */
  lemma FilterBodyParts(min: string, max: string)
    requires '-' !in min
    ensures var body := FilterBody(Filters(min, max));
            var i := |min| + 2;
            && Find(body, "-") == i
            && body[i - 2..i] == "00" && body[|body| - 2..] == "00"
            && body[..i - 2] == min && body[i + 1..|body| - 2] == max
  {
    var body := FilterBody(Filters(min, max));
    var lo := min + "00";
    assert '-' !in lo;
    CleanChar(lo, '-');
    assert "00-" == "00" + "-";
    assert body == lo + "-" + (max + "00");
    FindAfterClean(lo, "-", max + "00");
  }

  /** The fragment is each bound with `"00"` appended, joined by `-`. */
  lemma PriceFilterLayout(f: Filters)
    ensures PriceFilter(f) == FilterPrefix + (f.min + "00") + "-" + (f.max + "00")
  {
    assert "00-" == "00" + "-";
  }

  /** Whole-number bounds are scaled by 100 as the cents the marketplace
      expects; a bound with a decimal point is not: appending `"00"` after
      the fraction leaves its value unchanged, and the fragment keeps the
      point. */
  lemma PriceFilterKeepsDecimalBound(whole: string, frac: string, max: string)
    requires |whole| > 0 && AllDigits(whole) && AllDigits(frac)
    ensures PriceFilter(Filters(whole + "." + frac, max))
         == FilterPrefix + (whole + "." + frac + "00") + "-" + (max + "00")
    ensures ParseFloat(whole + "." + frac + "00") == ParseFloat(whole + "." + frac)
    ensures !AllDigits(whole + "." + frac + "00")
  {
    PriceFilterLayout(Filters(whole + "." + frac, max));
    var padded := frac + Zeros(2);
    assert whole + "." + frac + "00" == whole + "." + padded by {
      assert Zeros(2) == "00";
    }
    assert ParseFloat(whole + "." + padded) == ParseFloat(whole + "." + frac) by {
      PaddedFraction(whole, frac, 2);
      ParseFloatDecimal(whole, padded);
      ParseFloatDecimal(whole, frac);
    }
    assert (whole + "." + frac + "00")[|whole|] == '.';
  }

  /** The price text the configured bound stands for, in whole cents: the
      digits of `whole.frac` with the fraction padded to two places. Bounds
      with more than two decimals or other characters have no such form. */
  function ToCents(bound: string): (r: Option<string>)
    ensures r.Some? ==> |r.value| > 0 && AllDigits(r.value)
  {
    var i := Find(bound, ".");
    var whole := if i < 0 then bound else bound[..i];
    var frac := if i < 0 then [] else bound[i + 1..];
    if |whole| > 0 && AllDigits(whole) && AllDigits(frac) && |frac| <= 2 then
      var cents := whole + frac + Zeros(2 - |frac|);
      assert AllDigits(cents) by {
        forall k | 0 <= k < |cents|
          ensures IsDigit(cents[k])
        {
          if k < |whole| { assert cents[k] == whole[k]; }
          else if k < |whole| + |frac| { assert cents[k] == frac[k - |whole|]; }
          else { assert cents[k] == '0'; }
        }
      }
      Some(cents)
    else None
  }

  /** The price-range fragment with both bounds in whole cents. */
  function CentsFilter(f: Filters): Option<string>
  {
    match (ToCents(f.min), ToCents(f.max))
    case (Some(lo), Some(hi)) => Some(FilterPrefix + lo + "-" + hi)
    case _ => None
  }

  /** `ToCents` multiplies the bound's value by 100. */
  lemma ToCentsScales(bound: string)
    requires ToCents(bound).Some?
    ensures ParseFloat(bound).Some?
    ensures DigitsValue(ToCents(bound).value) as real == 100.0 * ParseFloat(bound).value
  {
    var i := Find(bound, ".");
    if i < 0 {
      assert |bound| > 0 && AllDigits(bound);
      ToCentsScalesWhole(bound);
    } else {
      var whole := bound[..i];
      var frac := bound[i + 1..];
      assert |whole| > 0 && AllDigits(whole) && AllDigits(frac) && |frac| <= 2;
      assert bound == whole + "." + frac;
      ToCentsScalesDecimal(whole, frac);
    }
  }

  /** `ToCentsScales` for a bound without a point. */
  lemma ToCentsScalesWhole(bound: string)
    requires |bound| > 0 && AllDigits(bound)
    ensures ToCents(bound).Some? && ParseFloat(bound).Some?
    ensures DigitsValue(ToCents(bound).value) as real == 100.0 * ParseFloat(bound).value
  {
    ToCentsWhole(bound);
    ParseFloatInteger(bound);
    WholeCents(bound);
  }

  /** Two zeros appended to a digit string multiply its value by 100. */
  lemma WholeCents(bound: string)
    requires AllDigits(bound)
    ensures AllDigits(bound + "00")
    ensures DigitsValue(bound + "00") as real == 100.0 * (DigitsValue(bound) as real)
  {
    DigitsValueConcat(bound, "00");
    assert DigitsValue("00") == 0;
    assert Pow10(2) == 100;
  }

  /** `ToCentsScales` for a bound `whole.frac`. */
  lemma ToCentsScalesDecimal(whole: string, frac: string)
    requires |whole| > 0 && AllDigits(whole) && AllDigits(frac) && |frac| <= 2
    ensures ToCents(whole + "." + frac).Some? && ParseFloat(whole + "." + frac).Some?
    ensures DigitsValue(ToCents(whole + "." + frac).value) as real
         == 100.0 * ParseFloat(whole + "." + frac).value
  {
    ToCentsDecimal(whole, frac);
    ParseFloatDecimal(whole, frac);
    CentsOfParts(whole, frac);
  }

  /** The digits of `whole` and of `frac` padded to two places count the
      cents of `whole.frac`. */
  lemma CentsOfParts(whole: string, frac: string)
    requires |whole| > 0 && AllDigits(whole) && AllDigits(frac) && |frac| <= 2
    ensures DigitsValue(whole + frac + Zeros(2 - |frac|)) as real == 100.0 * DecimalValue(whole, frac)
  {
    var padded := frac + Zeros(2 - |frac|);
    assert whole + frac + Zeros(2 - |frac|) == whole + padded;
    PaddedFraction(whole, frac, 2 - |frac|);
    CentsValue(whole, padded);
  }

  /** On whole-number bounds the corrected fragment is the one the source
      builds. */
  lemma CentsFilterAgreesOnWholeBounds(f: Filters)
    requires |f.min| > 0 && AllDigits(f.min) && |f.max| > 0 && AllDigits(f.max)
    ensures CentsFilter(f) == Some(PriceFilter(f))
  {
    ToCentsWhole(f.min);
    ToCentsWhole(f.max);
    assert FilterPrefix + (f.min + "00") + "-" + (f.max + "00") == PriceFilter(f);
  }

  /** A whole-number bound gains two zeros. */
  lemma ToCentsWhole(bound: string)
    requires |bound| > 0 && AllDigits(bound)
    ensures ToCents(bound) == Some(bound + "00")
  {
    DigitsHaveNo(bound, '.');
    NotContainsChar(bound, '.');
    assert Find(bound, ".") == -1;
    assert Zeros(2) == "00";
    assert bound + [] + Zeros(2) == bound + "00";
  }

  /** The bounds of the shipped configuration, 4.59 and 12.9, go out as
      4.5900 and 12.900: the lower bound keeps its point. */
  lemma ConfiguredFilterAsWritten()
    ensures PriceFilter(Filters("4.59", "12.9")) == "&rh=p_36%3A4.5900-12.900"
    ensures !AllDigits("4.5900")
  {
    assert "4.5900"[1] == '.';
  }

  /** A bound with at most two decimals becomes its digits with the
      fraction padded to two places. */
  lemma ToCentsDecimal(whole: string, frac: string)
    requires |whole| > 0 && AllDigits(whole) && AllDigits(frac) && |frac| <= 2
    ensures ToCents(whole + "." + frac) == Some(whole + frac + Zeros(2 - |frac|))
  {
    var b := whole + "." + frac;
    DigitsHaveNo(whole, '.');
    CleanChar(whole, '.');
    FindAfterClean(whole, ".", frac);
    assert b[..|whole|] == whole;
    assert b[|whole| + 1..] == frac;
  }

  /** The configured bounds in cents: the corrected fragment for the
      shipped configuration reads 459-1290. */
  lemma ConfiguredMin()
    ensures ToCents("4.59") == Some("459")
  {
    assert "4.59" == "4" + "." + "59";
    ToCentsDecimal("4", "59");
    assert "4" + "59" + Zeros(0) == "459";
  }

  lemma ConfiguredMax()
    ensures ToCents("12.9") == Some("1290")
  {
    assert "12.9" == "12" + "." + "9";
    ToCentsDecimal("12", "9");
    assert Zeros(1) == "0";
    assert "12" + "9" + Zeros(1) == "1290";
  }
  // ---------------------------------------------------------------------
  // get_price
  // ---------------------------------------------------------------------

  /** The fallback tier applies: the availability text says `Available`
      and the offers panel has a price element. */
  predicate OfferFallback(page: Page)
  {
    && page.availability.Some?
    && Contains(page.availability.value, AvailableWord)
    && page.olpPaddingRight.Some?
  }

  /** `get_price`: the primary price element if present, else the offers
      panel when the item is available, its text cut at the first currency
      symbol. Every exception becomes `None`. */
  function GetPrice(page: Page, currency: string): (r: Option<real>)
    ensures page.priceblockOurprice.Some? ==> r == ConvertPrice(page.priceblockOurprice.value, currency)
    ensures page.priceblockOurprice.None? && OfferFallback(page)
            ==> r == ConvertPrice(page.olpPaddingRight.value, currency)
    ensures r.Some? ==> page.priceblockOurprice.Some? || OfferFallback(page)
  {
    match page.priceblockOurprice
    case Some(text) => ConvertPrice(text, currency)
    case None =>
      match page.availability
      case None => None
      case Some(availability) =>
        if !Contains(availability, AvailableWord) then None
        else
          match page.olpPaddingRight
          case None => None
          case Some(text) =>
            ConvertIgnoresTextBeforeSymbol(text, currency);
            ConvertPrice(Slice(text, Find(text, currency), |text|), currency)
  }

  // ---------------------------------------------------------------------
  // get_single_product_info, get_products_info, run
  // ---------------------------------------------------------------------

  /** What every emitted record satisfies. */
  predicate ValidRecord(p: Product, baseUrl: string)
  {
    p.title != [] && p.seller != [] && p.price != 0.0 && p.url == ShortenUrl(baseUrl, p.asin)
  }

  /** `get_single_product_info`: visit the product page and keep the record
      only when title, seller and price are all truthy. */
  function GetSingleProductInfo(asin: string, site: Site, baseUrl: string, currency: string): (r: Option<Product>)
    ensures r.Some? ==> ValidRecord(r.value, baseUrl) && r.value.asin == asin
  {
    var page := site(ProductPageUrl(baseUrl, asin));
    var price := GetPrice(page, currency);
    if HasText(page.productTitle) && HasText(page.bylineInfo) && price.Some? && price.value != 0.0 then
      Some(Product(asin, ShortenUrl(baseUrl, asin), page.productTitle.value, page.bylineInfo.value, price.value))
    else None
  }

  /** A record is produced exactly when the page has a title, a seller and
      a non-zero price, and it carries those three values. */
  lemma SingleProductInfoKept(asin: string, site: Site, baseUrl: string, currency: string)
    ensures var page := site(ProductPageUrl(baseUrl, asin));
            var price := GetPrice(page, currency);
            var kept := GetSingleProductInfo(asin, site, baseUrl, currency).Some?;
            kept <==> (HasText(page.productTitle) && HasText(page.bylineInfo)
                       && price.Some? && price.value != 0.0)
    ensures var page := site(ProductPageUrl(baseUrl, asin));
            var r := GetSingleProductInfo(asin, site, baseUrl, currency);
            r.Some? ==> && r.value.title == page.productTitle.value
                        && r.value.seller == page.bylineInfo.value
                        && Some(r.value.price) == GetPrice(page, currency)
                        && r.value.url == ShortenUrl(baseUrl, asin)
  {
  }

  /** The values of the `Some` entries, in order. */
  function Somes(rs: seq<Option<Product>>): (r: seq<Product>)
    ensures |r| <= |rs|
    ensures forall k :: 0 <= k < |r| ==> Some(r[k]) in rs
  {
    if |rs| == 0 then []
    else (if rs[0].Some? then [rs[0].value] else []) + Somes(rs[1..])
  }

  /** Collecting distributes over concatenation. */
  lemma {:induction false} SomesAppend(a: seq<Option<Product>>, b: seq<Option<Product>>)
    ensures Somes(a + b) == Somes(a) + Somes(b)
    decreases |a|
  {
    if |a| > 0 {
      assert (a + b)[1..] == a[1..] + b;
      SomesAppend(a[1..], b);
    } else {
      assert a + b == b;
    }
  }

  /** A value is collected exactly when it occurs as a `Some` entry. */
  lemma {:induction false} SomesMembers(rs: seq<Option<Product>>, p: Product)
    ensures p in Somes(rs) <==> Some(p) in rs
    decreases |rs|
  {
    if |rs| > 0 {
      SomesMembers(rs[1..], p);
      assert rs == [rs[0]] + rs[1..];
    }
  }

  /** The page lookup of each identifier, in order. */
  function Lookups(asins: seq<string>, site: Site, baseUrl: string, currency: string): (r: seq<Option<Product>>)
    ensures |r| == |asins|
    ensures forall i :: 0 <= i < |asins| ==> r[i] == GetSingleProductInfo(asins[i], site, baseUrl, currency)
  {
    seq(|asins|, i requires 0 <= i < |asins| => GetSingleProductInfo(asins[i], site, baseUrl, currency))
  }

  /** The records kept for a list of identifiers, in order. */
  function KeptProducts(asins: seq<string>, site: Site, baseUrl: string, currency: string): (r: seq<Product>)
    ensures |r| <= |asins|
    ensures forall k :: 0 <= k < |r| ==> ValidRecord(r[k], baseUrl)
  {
    var rs := Lookups(asins, site, baseUrl, currency);
    var r := Somes(rs);
    assert forall k :: 0 <= k < |r| ==> ValidRecord(r[k], baseUrl) by {
      forall k | 0 <= k < |r|
        ensures ValidRecord(r[k], baseUrl)
      {
        var i :| 0 <= i < |rs| && rs[i] == Some(r[k]);
        assert GetSingleProductInfo(asins[i], site, baseUrl, currency) == Some(r[k]);
      }
    }
    r
  }

  /** Keeping distributes over concatenation: records stay in input order. */
  lemma KeptProductsAppend(a: seq<string>, b: seq<string>, site: Site, baseUrl: string, currency: string)
    ensures KeptProducts(a + b, site, baseUrl, currency)
         == KeptProducts(a, site, baseUrl, currency) + KeptProducts(b, site, baseUrl, currency)
  {
    var la := Lookups(a, site, baseUrl, currency);
    var lb := Lookups(b, site, baseUrl, currency);
    assert Lookups(a + b, site, baseUrl, currency) == la + lb;
    SomesAppend(la, lb);
  }

  /** A product whose page misses a field leaves no trace in the list. */
  lemma DroppedProductLeavesNoTrace(a: seq<string>, asin: string, b: seq<string>, site: Site, baseUrl: string, currency: string)
    requires GetSingleProductInfo(asin, site, baseUrl, currency).None?
    ensures KeptProducts(a + [asin] + b, site, baseUrl, currency)
         == KeptProducts(a, site, baseUrl, currency) + KeptProducts(b, site, baseUrl, currency)
  {
    var ka := KeptProducts(a, site, baseUrl, currency);
    var kb := KeptProducts(b, site, baseUrl, currency);
    assert KeptProducts(a + [asin], site, baseUrl, currency) == ka by {
      KeptProductsAppend(a, [asin], site, baseUrl, currency);
      KeptNothing(asin, site, baseUrl, currency);
    }
    KeptProductsAppend(a + [asin], b, site, baseUrl, currency);
  }

  /** An identifier without a record keeps nothing. */
  lemma KeptNothing(asin: string, site: Site, baseUrl: string, currency: string)
    requires GetSingleProductInfo(asin, site, baseUrl, currency).None?
    ensures KeptProducts([asin], site, baseUrl, currency) == []
  {
    var l := Lookups([asin], site, baseUrl, currency);
    assert l == [None];
    assert l[1..] == [];
  }

  /** A record is in the list exactly when some identifier produced it. */
  lemma KeptProductsMembers(asins: seq<string>, site: Site, baseUrl: string, currency: string, p: Product)
    ensures p in KeptProducts(asins, site, baseUrl, currency)
        <==> exists i :: 0 <= i < |asins| && GetSingleProductInfo(asins[i], site, baseUrl, currency) == Some(p)
  {
    var rs := Lookups(asins, site, baseUrl, currency);
    SomesMembers(rs, p);
    if Some(p) in rs {
      var i :| 0 <= i < |rs| && rs[i] == Some(p);
      assert GetSingleProductInfo(asins[i], site, baseUrl, currency) == Some(p);
    }
  }

  /** `get_products_info`: visits each link's product page and collects
      the truthy records in link order. */
  method GetProductsInfo(links: seq<string>, site: Site, baseUrl: string, currency: string)
    returns (products: seq<Product>)
    ensures products == KeptProducts(GetAsins(links), site, baseUrl, currency)
  {
    var lookups := Lookups(GetAsins(links), site, baseUrl, currency);
    products := CollectSomes(lookups);
    KeptIsCollected(GetAsins(links), site, baseUrl, currency);
  }

  /** The loop of `get_products_info`: appends each present record. */
  method CollectSomes(rs: seq<Option<Product>>) returns (products: seq<Product>)
    ensures products == Somes(rs)
  {
    products := [];
    var i := 0;
    while i < |rs|
      invariant 0 <= i <= |rs|
      invariant products == Somes(rs[..i])
    {
      SomesStep(rs, i);
      if rs[i].Some? {
        products := products + [rs[i].value];
      }
      i := i + 1;
    }
    assert rs[..i] == rs;
  }

  /** The kept records are the collected lookups. */
  lemma KeptIsCollected(asins: seq<string>, site: Site, baseUrl: string, currency: string)
    ensures KeptProducts(asins, site, baseUrl, currency) == Somes(Lookups(asins, site, baseUrl, currency))
  {
  }

  /** One more entry adds its value, if it has one, after the others. */
  lemma SomesStep(rs: seq<Option<Product>>, i: nat)
    requires i < |rs|
    ensures Somes(rs[..i + 1]) == Somes(rs[..i]) + (if rs[i].Some? then [rs[i].value] else [])
  {
    SomesAppend(rs[..i], [rs[i]]);
    assert rs[..i + 1] == rs[..i] + [rs[i]];
    assert [rs[i]][1..] == [];
  }

  /** `run`: `None` when the search produced no links (the early `return`),
      otherwise the product list. */
  method Run(links: seq<string>, site: Site, baseUrl: string, currency: string)
    returns (r: Option<seq<Product>>)
    ensures r.None? <==> |links| == 0
    ensures r.Some? ==> r.value == KeptProducts(GetAsins(links), site, baseUrl, currency)
  {
    if |links| == 0 {
      return None;
    }
    var products := GetProductsInfo(links, site, baseUrl, currency);
    return Some(products);
  }
}
