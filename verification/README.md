# AmazonPriceTracker: a Dafny model of the extraction core

The tracker searches an Amazon marketplace for a product category within a
price range. It visits each product page it finds, extracts the title, the
seller and the price, and writes a JSON report that names the cheapest
product. This project models the data logic of that pipeline in
`simple_tracker.py`, and proves properties of it:

- `pystr.dfy` (`PyStr`): the Python string operations the code relies on,
  with CPython's semantics. `str.find` returns -1 when the text is absent.
  Slicing normalises negative bounds and clamps to the length. `str.split`
  cuts at the leftmost non-overlapping occurrences. `in` is substring
  containment.
- `price_parser.dfy` (`PriceParser`): `AmazonAPI.convert_price`. The text is
  cut at the currency symbol. A newline-separated whole/fraction pair is
  joined with a point, one thousands comma is removed, and the result goes
  to `float()`, which is modelled for decimal literals.
- `amazon_api.dfy` (`AmazonApi`): these pieces of the code:
  - `get_asin` and `get_asins`;
  - `shorten_url`;
  - the price-range fragment `price_filter`;
  - the two-tier `get_price`;
  - `get_single_product_info`, `get_products_info` and `run`.

  The browser is replaced by a `Site`: a function from URL to the `Page`
  served there. A `Page` holds the texts of the elements the tracker looks
  up, and each text is `None` when the element is missing.
- `generate_report.dfy` (`GenerateReport`): `get_best_item`, which is the
  head of the products stably sorted by price, plus the report record and
  the script's entry point.
- `wrappers.dfy` (`Wrappers`): `Option`, which stands for Python's `None`.
  It also stands for the exceptions the tracker catches and turns into
  `None`.

Prices are `real`. Python truthiness reads as follows:
- a price is truthy when it is not `0.0`;
- a text is truthy when it is present and non-empty.

Two behaviours of the code worth knowing:
- When the search produced no links, `run` returns `None`, not an empty
  list. The report then holds `products: null` and `best_item: null`
  (`AmazonApi.Run`, `GenerateReport.TrackAndReport`).
- The best item is the head of `sorted(data, key=price)`. On ties this is
  the earliest of the cheapest products, as `min` would choose. Sorting
  `None` raises, so `get_best_item(None)` is `None`.

## Model

| member | source | states |
|---|---|---|
| PyStr.Find | simple_tracker.py:204 | `str.find`: never below -1; -1 exactly when the text is absent; otherwise an occurrence with none earlier |
| PyStr.Slice | simple_tracker.py:204 | `s[a:b]` never fails, is `s[a..b]` for in-range bounds, and is empty when the normalised bounds cross |
| PyStr.Split | simple_tracker.py:213 | `split(sep)` yields one piece exactly when `sep` is absent, and joining the pieces with `sep` gives back the input |
| PyStr.SplitAfterClean | simple_tracker.py:213 | the first piece ends at the first occurrence of the separator; the rest is the split of what follows |
| PyStr.SplitPiecesFree | simple_tracker.py:213 | no piece of a split contains the separator |
| PriceParser.Strip | simple_tracker.py:222 | `float()` ignores surrounding whitespace: the result is a contiguous stretch of the text with only whitespace cut away around it, and none left at either end |
| PriceParser.ParseFloat | simple_tracker.py:222 | `float()` of blank text fails; a negative result needs a leading `-` |
| PriceParser.ParseFloatInteger | simple_tracker.py:222 | `float()` of a digit string is its value |
| PriceParser.ParseFloatDecimal | simple_tracker.py:222 | `float("whole.frac")` is whole + frac / 10^len(frac) |
| PriceParser.PaddedFraction | simple_tracker.py:222 | trailing zeros after the point do not change the value `float()` reads |
| PriceParser.NewlineStep | simple_tracker.py:214-217 | after the newline step no newline is left, and text without a newline is unchanged |
| PriceParser.NewlineStepJoins | simple_tracker.py:215 | `a\nb...` becomes `a.b`; later newline pieces are dropped |
| PriceParser.CommaStep | simple_tracker.py:218-221 | after the comma step no comma is left, text without a comma is unchanged, and no character is introduced |
| PriceParser.CommaStepConcatenates | simple_tracker.py:219 | `a,b,...` becomes `ab`: groups after the second are dropped |
| PriceParser.NormalizePrice | simple_tracker.py:213-221 | the text reaching `float()` exists exactly when the currency is non-empty and occurs; it holds no newline and no comma |
| PriceParser.ConvertPrice | simple_tracker.py:212-222 | `convert_price` fails when the currency is empty or absent, and succeeds only when the normalised text exists |
| PriceParser.NormalizeLastSegment | simple_tracker.py:213 | only the text after the first symbol matters when the symbol occurs once |
| PriceParser.NormalizeMiddleSegment | simple_tracker.py:213 | only the text between the first and second symbol matters when it occurs again |
| PriceParser.ConvertWholeAndFraction | simple_tracker.py:212-222 | a price shown as `<symbol><whole>\n<fraction>` converts to `whole.fraction` |
| PriceParser.ConvertThousands | simple_tracker.py:212-222 | a price shown as `<symbol><high>,<low>` converts to the number whose digits are high followed by low |
| PriceParser.ConvertIgnoresTextBeforeSymbol | simple_tracker.py:187-188 | cutting the offer text at the first currency symbol never changes what `convert_price` returns |
| AmazonApi.GetAsin | simple_tracker.py:199-204 | the identifier is no longer than the link, and is empty when `/ref` starts before the identifier would |
| AmazonApi.GetAsinOfProductLink | simple_tracker.py:199-204 | for `<prefix>/dp/<id>/ref<suffix>` with no earlier markers, the identifier is exactly `<id>` |
| AmazonApi.GetAsinWithoutRef | simple_tracker.py:204 | without `/ref` the slice stops at -1 and the last character of the identifier is lost |
| AmazonApi.GetAsinWithoutDp | simple_tracker.py:204 | without `/dp/` the slice starts at index 3 |
| AmazonApi.GetAsinWithoutMarkers | simple_tracker.py:204 | with neither marker the result is `link[3:-1]` |
| AmazonApi.GetAsins | simple_tracker.py:129-133 | one identifier per link, in link order |
| AmazonApi.ShortenUrl | simple_tracker.py:206-210 | the canonical URL is the base URL, then `dp/`, then the identifier |
| AmazonApi.ShortenUrlInjective | simple_tracker.py:206-210 | distinct identifiers give distinct canonical URLs |
| AmazonApi.ShortUrlLosesLastCharacter | simple_tracker.py:199-210 | `get_asin` applied to a canonical URL drops the identifier's last character, because that URL has no `/ref` |
| AmazonApi.PriceFilter | simple_tracker.py:74 | the fragment is the fixed prefix, the lower bound, `00-`, the upper bound and `00`: each bound is sent with `"00"` appended as text, and nothing else is added |
| AmazonApi.PriceFilterRoundTrip | simple_tracker.py:74 | the fragment determines both bounds whenever the lower bound has no `-` |
| AmazonApi.PriceFilterKeepsDecimalBound | simple_tracker.py:74 | a bound `w.f` goes out as `w.f00`: still a decimal, with the same value, not the cents the comment at lines 72-73 describes |
| AmazonApi.ConfiguredFilterAsWritten | simple_tracker.py:74 | the configured bounds 4.59 and 12.9 go out as `4.5900-12.900` |
| AmazonApi.ToCents | simple_tracker.py:72-74 | the corrected bound is a non-empty digit string |
| AmazonApi.ToCentsScales | simple_tracker.py:72-74 | the corrected bound counts exactly 100 times the decimal value of the configured bound |
| AmazonApi.CentsFilterAgreesOnWholeBounds | simple_tracker.py:74 | for whole-number bounds the corrected fragment equals the one the code builds |
| AmazonApi.ConfiguredMin | simple_tracker.py:74 | the configured lower bound 4.59 is 459 cents in the corrected fragment |
| AmazonApi.ConfiguredMax | simple_tracker.py:74 | the configured upper bound 12.9 is 1290 cents in the corrected fragment |
| AmazonApi.GetPrice | simple_tracker.py:173-197 | the primary price element decides when present; otherwise the offer text is used when the item is available; no price comes from anywhere else |
| AmazonApi.GetSingleProductInfo | simple_tracker.py:135-155 | an emitted record has a title, a seller, a non-zero price, the asked identifier and its canonical URL |
| AmazonApi.SingleProductInfoKept | simple_tracker.py:135-155 | a record is produced exactly when title, seller and price are all truthy, and it carries those three values |
| AmazonApi.KeptProducts | simple_tracker.py:117-127 | no more records than identifiers, and every record is valid |
| AmazonApi.KeptProductsAppend | simple_tracker.py:122-127 | records keep the order of their links |
| AmazonApi.DroppedProductLeavesNoTrace | simple_tracker.py:124-126 | a product whose record is falsy does not affect the list |
| AmazonApi.KeptProductsMembers | simple_tracker.py:123-126 | a record is in the list exactly when some link's page produced it |
| AmazonApi.CollectSomes | simple_tracker.py:122-127 | the loop appends exactly the present records, in order |
| AmazonApi.GetProductsInfo | simple_tracker.py:117-127 | the result is the list of kept records for the links' identifiers |
| AmazonApi.Run | simple_tracker.py:76-89 | `None` exactly when there are no links; otherwise the kept records |
| GenerateReport.InsertByPrice | simple_tracker.py:55 | the new element is spliced in at a position behind every cheaper element and ahead of every other one, equal prices included; the result is a sorted permutation |
| GenerateReport.SortByPrice | simple_tracker.py:55 | `sorted(key=price)` is a permutation ordered by price |
| GenerateReport.FirstMinIndex | simple_tracker.py:55 | the first position of the lowest price |
| GenerateReport.SortHeadIsFirstMin | simple_tracker.py:55 | the stable sort's head is the first cheapest product |
| GenerateReport.SortSortedIsIdentity | simple_tracker.py:55 | an already ordered list is left unchanged |
| GenerateReport.GetBestItem | simple_tracker.py:50-59 | `None` exactly for a missing or empty list; otherwise a member of the list whose price is minimal, and the first such one |
| GenerateReport.BestOfThree | simple_tracker.py:50-59 | of products priced 12.90, 4.59 and 9.00 the one at 4.59 is best |
| GenerateReport.TieGoesToFirst | simple_tracker.py:55 | of two equally priced products the earlier one is best |
| GenerateReport.BuildReport | simple_tracker.py:20-35 | the report keeps its inputs, and its best item is a cheapest listed product, present exactly when a product is listed |
| GenerateReport.TrackAndReport | simple_tracker.py:225-228 | the report lists no products exactly when there were no links, and its best item is a complete record with a non-zero price |

## Left out

- Browser automation is not modelled: opening pages, typing the search term,
  the sleeps and the XPath queries are left out. `get_products_links`
  (lines 91-115) becomes the `links` input, and each page is a `Page` value
  given by `Site`.
- `get_title` and `get_seller` (lines 157-171) are not separate operations.
  Their caught exceptions appear as `None` fields of `Page`.
- Printing and logging are left out.
- The JSON file write is left out (lines 37-40), and so is the reports
  directory.
- `get_now` (lines 42-48) reads the wall clock, so the report's `date` is a
  parameter of `BuildReport`.
- `driver.quit()` is left out (line 88). It is a browser side effect, and
  the code skips it on the early return.
- PriceParser.ParseFloat: only decimal literals are modelled: optional sign,
  digits with at most one point, and surrounding Python whitespace. Exponents,
  `_` digit separators, `inf`/`nan` and non-ASCII digits make the model
  report failure where Python's `float()` would accept them.
- PriceParser.ConvertPrice: values are exact reals. Binary floating-point
  rounding of the parsed value is not modelled.
- AmazonApi.GetPrice: a page field is either the element's text or `None`
  for a missing element; an element that exists but whose lookup or `.text`
  raises some other exception is not representable. For the primary price
  element the code returns `None` in that case (lines 193-196), while the
  model, which can only read the page as having no primary element, goes on
  to the availability and offer fallback (lines 183-188) and may return a
  price. The same holds for the fallback elements, where the code's broad
  handler (lines 189-192) and the model agree on `None` only when the
  element is missing.
- GenerateReport.GetBestItem: the comparison failures Python's `sorted` can
  raise on mixed types cannot occur with real prices, and NaN is not modelled.

## Findings

| source | as written | input that shows it | evidently intended | confidence | as-written member | corrected member |
|---|---|---|---|---|---|---|
| simple_tracker.py:74 | `"00"` is appended to each price bound as text | the configured bounds `'4.59'` and `'12.9'` (amazon_config.py:6-7) produce `&rh=p_36%3A4.5900-12.900` | the bounds in cents, as the comment at lines 72-73 says: `459-1290` | medium; not executed | AmazonApi.PriceFilterKeepsDecimalBound | AmazonApi.ToCentsScales |

`AmazonApi.PriceFilter` is the fragment as written, and
`AmazonApi.ConfiguredFilterAsWritten` shows it on the shipped configuration.
`AmazonApi.CentsFilter` is the corrected fragment:
- `AmazonApi.ToCentsScales` proves that each of its bounds counts 100 times
  the decimal value.
- `AmazonApi.CentsFilterAgreesOnWholeBounds` proves that it agrees with the
  code on whole-number bounds.
- `AmazonApi.ConfiguredMin` and `AmazonApi.ConfiguredMax` give its values
  for the shipped configuration.

The thousands handling in `convert_price` is modelled as written, and
`PriceParser.CommaStepConcatenates` states it. It removes only the first
comma and drops every later digit group. Whether prices with two commas
reach this code depends on the marketplace's pages. This model does not
include those pages, so the behaviour is not claimed as a defect.
