/** The report written after a run: the cheapest product, chosen the way
    `GenerateReport.get_best_item` chooses it, by taking the head of the
    products stably sorted by price. */
module GenerateReport {
  import opened Wrappers
  import opened AmazonApi

  // ---------------------------------------------------------------------
  // Stable sort by price (Python's `sorted(data, key=price)`)
  // ---------------------------------------------------------------------

  /** Prices never decrease along `s`. */
  predicate SortedByPrice(s: seq<Product>)
  {
    forall i, j :: 0 <= i < j < |s| ==> s[i].price <= s[j].price
  }

  /** `r` is `s` with `x` inserted at position `k`: behind every element
      that undercuts it and ahead of every other one, including those of
      equal price. */
  predicate PlacedAt(x: Product, s: seq<Product>, r: seq<Product>, k: int)
  {
    0 <= k <= |s| && r == s[..k] + [x] + s[k..]
    && (forall j :: 0 <= j < k ==> s[j].price < x.price)
    && (forall j :: k <= j < |s| ==> x.price <= s[j].price)
  }

  /** Puts `x` in front of the first element that does not undercut it, so
      that `x` stays ahead of every element of equal price. */
  function InsertByPrice(x: Product, s: seq<Product>): (r: seq<Product>)
    requires SortedByPrice(s)
    ensures exists k :: PlacedAt(x, s, r, k)
    ensures multiset(r) == multiset(s) + multiset{x}
    ensures SortedByPrice(r)
    ensures r[0] == if |s| == 0 || x.price <= s[0].price then x else s[0]
  {
    if |s| == 0 || x.price <= s[0].price then
      InsertInFront(x, s);
      [x] + s
    else
      var t := InsertByPrice(x, s[1..]);
      InsertBehindHead(x, s, t);
      [s[0]] + t
  }

  /** An element no dearer than the head goes in front. */
  lemma InsertInFront(x: Product, s: seq<Product>)
    requires SortedByPrice(s) && (|s| == 0 || x.price <= s[0].price)
    ensures PlacedAt(x, s, [x] + s, 0)
    ensures SortedByPrice([x] + s)
  {
    assert s[..0] + [x] + s[0..] == [x] + s;
  }

  /** An element dearer than the head goes where it goes in the rest. */
  lemma InsertBehindHead(x: Product, s: seq<Product>, t: seq<Product>)
    requires SortedByPrice(s) && |s| > 0 && s[0].price < x.price
    requires exists k :: PlacedAt(x, s[1..], t, k)
    requires multiset(t) == multiset(s[1..]) + multiset{x}
    requires SortedByPrice(t) && t[0] == (if |s| == 1 || x.price <= s[1].price then x else s[1])
    ensures exists k :: PlacedAt(x, s, [s[0]] + t, k)
    ensures multiset([s[0]] + t) == multiset(s) + multiset{x}
    ensures SortedByPrice([s[0]] + t)
  {
    assert s == [s[0]] + s[1..];
    LeadBelowSorted(s[0], t);
    PlacedBehindHead(x, s, t);
  }

  /** Inserting behind an undercutting head shifts the position by one. */
  lemma PlacedBehindHead(x: Product, s: seq<Product>, t: seq<Product>)
    requires |s| > 0 && s[0].price < x.price
    requires exists k :: PlacedAt(x, s[1..], t, k)
    ensures exists k :: PlacedAt(x, s, [s[0]] + t, k)
  {
    var k :| PlacedAt(x, s[1..], t, k);
    assert s[..k + 1] == [s[0]] + s[1..][..k];
    assert s[k + 1..] == s[1..][k..];
    assert PlacedAt(x, s, [s[0]] + t, k + 1);
  }

  /** A sorted list stays sorted behind an element no dearer than its head. */
  lemma LeadBelowSorted(y: Product, t: seq<Product>)
    requires SortedByPrice(t) && |t| > 0 && y.price <= t[0].price
    ensures SortedByPrice([y] + t)
  {
  }

  /** `sorted(s, key=price)`: an insertion sort that keeps elements of equal
      price in their input order. */
  function SortByPrice(s: seq<Product>): (r: seq<Product>)
    ensures multiset(r) == multiset(s)
    ensures SortedByPrice(r)
  {
    if |s| == 0 then []
    else
      assert s == [s[0]] + s[1..];
      InsertByPrice(s[0], SortByPrice(s[1..]))
  }

  /** `k` is the first position holding the lowest price of `s`. */
  predicate IsFirstMin(s: seq<Product>, k: int)
  {
    0 <= k < |s|
    && (forall j :: 0 <= j < |s| ==> s[k].price <= s[j].price)
    && (forall j :: 0 <= j < k ==> s[k].price < s[j].price)
  }

  /** The first position of the lowest price, by a left-to-right scan. */
  function FirstMinIndex(s: seq<Product>): (r: nat)
    requires |s| > 0
    ensures IsFirstMin(s, r)
  {
    if |s| == 1 then 0
    else
      var k := FirstMinIndex(s[1..]);
      if s[0].price <= s[1 + k].price then 0 else 1 + k
  }

  /** Sorting puts the first cheapest product at the front: of several
      products with the lowest price, the earliest one wins. */
  lemma {:induction false} SortHeadIsFirstMin(s: seq<Product>)
    requires |s| > 0
    ensures SortByPrice(s)[0] == s[FirstMinIndex(s)]
  {
    var rest := s[1..];
    if |rest| > 0 {
      SortHeadIsFirstMin(rest);
      assert s[1 + FirstMinIndex(rest)] == rest[FirstMinIndex(rest)];
    }
  }

  /** Sorting changes nothing in a list already ordered by price. */
  lemma {:induction false} SortSortedIsIdentity(s: seq<Product>)
    requires SortedByPrice(s)
    ensures SortByPrice(s) == s
  {
    if |s| > 0 {
      var rest := s[1..];
      assert SortedByPrice(rest);
      SortSortedIsIdentity(rest);
      SortKeepsSortedHead(s);
    }
  }

  /** One step of the induction: a sorted list whose tail sorts to itself
      sorts to itself. */
  lemma {:induction false} SortKeepsSortedHead(s: seq<Product>)
    requires |s| > 0 && SortedByPrice(s) && SortByPrice(s[1..]) == s[1..]
    ensures SortByPrice(s) == s
  {
    InsertNoDearer(s[0], s[1..]);
    assert s == [s[0]] + s[1..];
  }

  /** An element no dearer than the head of a sorted list is put in front. */
  lemma InsertNoDearer(y: Product, t: seq<Product>)
    requires SortedByPrice(t) && (|t| == 0 || y.price <= t[0].price)
    ensures InsertByPrice(y, t) == [y] + t
  {
  }

  // ---------------------------------------------------------------------
  // get_best_item and the report
  // ---------------------------------------------------------------------

  /** `get_best_item`: the head of the products sorted by price; `None` when
      the run produced no list (sorting `None` raises) or an empty one
      (indexing it raises). */
  function GetBestItem(data: Option<seq<Product>>): (r: Option<Product>)
    ensures r.None? <==> data.None? || |data.value| == 0
    ensures r.Some? ==> r.value in data.value
    ensures r.Some? ==> forall p :: p in data.value ==> r.value.price <= p.price
    ensures r.Some? ==> r.value == data.value[FirstMinIndex(data.value)]
  {
    match data
    case None => None
    case Some(d) =>
      if |d| == 0 then None
      else
        SortHeadIsFirstMin(d);
        Some(SortByPrice(d)[0])
  }

  /** Three products priced 12.90, 4.59 and 9.00: the second is best. */
  lemma BestOfThree(a: Product, b: Product, c: Product)
    requires a.price == 12.90 && b.price == 4.59 && c.price == 9.00
    ensures GetBestItem(Some([a, b, c])) == Some(b)
  {
  }

  /** Of two products with the same price, the earlier one is best. */
  lemma TieGoesToFirst(a: Product, b: Product)
    requires a.price == b.price
    ensures GetBestItem(Some([a, b])) == Some(a)
  {
  }

  /** The JSON document the report file holds; `date` is the
      `dd/mm/yyyy HH:MM:SS` timestamp, supplied by the caller. */
  datatype Report = Report(
    title: string,
    date: string,
    bestItem: Option<Product>,
    currency: string,
    filters: Filters,
    baseLink: string,
    products: Option<seq<Product>>)

  /** A report names, as its best item, the first cheapest of its products,
      and has one exactly when it lists at least one product. */
  predicate Consistent(r: Report)
  {
    && (r.bestItem.None? <==> r.products.None? || |r.products.value| == 0)
    && (r.bestItem.Some? ==>
          r.bestItem.value in r.products.value
          && forall p :: p in r.products.value ==> r.bestItem.value.price <= p.price)
  }

  /** `GenerateReport.__init__` without the file write. */
  function BuildReport(fileName: string, date: string, filters: Filters, baseLink: string,
                       currency: string, data: Option<seq<Product>>): (r: Report)
    ensures Consistent(r)
    ensures r.products == data && r.title == fileName && r.date == date
    ensures r.currency == currency && r.filters == filters && r.baseLink == baseLink
  {
    Report(fileName, date, GetBestItem(data), currency, filters, baseLink, data)
  }

  /** The script's entry point: scrape the given result links, then build
      the report from whatever the run returned. A best item, when there is
      one, is a complete product record with a non-zero price. */
  method TrackAndReport(name: string, date: string, filters: Filters, links: seq<string>,
                        site: Site, baseUrl: string, currency: string)
    returns (report: Report)
    ensures Consistent(report)
    ensures report.products.None? <==> |links| == 0
    ensures report.products.Some? ==>
              report.products.value == KeptProducts(GetAsins(links), site, baseUrl, currency)
    ensures report.bestItem.Some? ==> ValidRecord(report.bestItem.value, baseUrl)
  {
    var data := Run(links, site, baseUrl, currency);
    report := BuildReport(name, date, filters, baseUrl, currency, data);
  }
}
