/** The query strings of the product listing and product count calls
    (libs/api/index.ts, `getProductsByCategory` and `getProductCount`): pairs appended to a
    `URLSearchParams` only when the filter is truthy, in a fixed order. */
module ProductQuery {
  import opened Wrappers
  import opened JsValues
  import opened Numerals
  import opened FormUrlEncoded
  import opened Session
  import opened Dispatch

  /** The optional `{ category_id?, subcategory_id? }` filter argument. */
  datatype ProductFilter = ProductFilter(categoryId: Option<string>, subcategoryId: Option<string>)

  const ListingPrefix := "/product?"
  const CountPrefix := "/product/count?"

  /** The position a key takes in these queries; any other key ranks last. */
  function KeyRank(key: string): nat
  {
    if key == "category_id" then 0
    else if key == "subcategory_id" then 1
    else if key == "limit" then 2
    else if key == "page" then 3
    else 4
  }

  /** Keys appear in strictly increasing rank: the fixed order, and no key twice. */
  predicate InKeyOrder(q: seq<Pair>)
  {
    forall i, j :: 0 <= i < j < |q| ==> KeyRank(q[i].0) < KeyRank(q[j].0)
  }

  /** Two lists in key order, every key of the first ranking below every key of the
      second, concatenate to a list in key order. */
  lemma ConcatInKeyOrder(a: seq<Pair>, b: seq<Pair>, bound: nat)
    requires InKeyOrder(a) && InKeyOrder(b)
    requires forall i :: 0 <= i < |a| ==> KeyRank(a[i].0) < bound
    requires forall j :: 0 <= j < |b| ==> bound <= KeyRank(b[j].0)
    ensures InKeyOrder(a + b)
  {
    var q := a + b;
    forall i, j | 0 <= i < j < |q| ensures KeyRank(q[i].0) < KeyRank(q[j].0) {
      if j < |a| {
        assert q[i] == a[i] && q[j] == a[j];
      } else if i < |a| {
        assert q[i] == a[i] && q[j] == b[j - |a|];
      } else {
        assert q[i] == b[i - |a|] && q[j] == b[j - |a|];
      }
    }
  }

  /** The filter pairs both calls start with: `category_id` when truthy, then
      `subcategory_id` when truthy. */
  function FilterPairs(f: ProductFilter): (q: seq<Pair>)
    ensures |q| <= 2
    ensures InKeyOrder(q)
    ensures forall i :: 0 <= i < |q| ==> KeyRank(q[i].0) < 2
    ensures Lookup(q, "category_id") == OrNull(f.categoryId)
    ensures Lookup(q, "subcategory_id") == OrNull(f.subcategoryId)
  {
    (if Truthy(f.categoryId) then [("category_id", f.categoryId.value)] else [])
    + (if Truthy(f.subcategoryId) then [("subcategory_id", f.subcategoryId.value)] else [])
  }

  /** The listing query: the filter pairs, then `limit`, then `page`, both always present,
      so two to four pairs, no key twice, in the fixed key order. */
  function ListingQuery(f: ProductFilter, limit: int, page: int): (q: seq<Pair>)
    ensures 2 <= |q| <= 4
    ensures InKeyOrder(q)
    ensures forall i :: 0 <= i < |q| ==> KeyRank(q[i].0) < 4
    ensures Lookup(q, "category_id") == OrNull(f.categoryId)
    ensures Lookup(q, "subcategory_id") == OrNull(f.subcategoryId)
    ensures Lookup(q, "limit") == Some(IntToDecimal(limit))
    ensures Lookup(q, "page") == Some(IntToDecimal(page))
  {
    var fp := FilterPairs(f);
    var q := fp + [("limit", IntToDecimal(limit)), ("page", IntToDecimal(page))];
    PagingAfterFilters(fp, IntToDecimal(limit), IntToDecimal(page));
    q
  }

  /** Appending `limit` and `page` to filter pairs keeps key order and hides no filter. */
  lemma PagingAfterFilters(fp: seq<Pair>, limitText: string, pageText: string)
    requires InKeyOrder(fp)
    requires forall i :: 0 <= i < |fp| ==> KeyRank(fp[i].0) < 2
    ensures var q := fp + [("limit", limitText), ("page", pageText)];
            && InKeyOrder(q)
            && (forall i :: 0 <= i < |q| ==> KeyRank(q[i].0) < 4)
            && Lookup(q, "limit") == Some(limitText)
            && Lookup(q, "page") == Some(pageText)
            && Lookup(q, "category_id") == Lookup(fp, "category_id")
            && Lookup(q, "subcategory_id") == Lookup(fp, "subcategory_id")
  {
    var paging := [("limit", limitText), ("page", pageText)];
    var q := fp + paging;
    ConcatInKeyOrder(fp, paging, 2);
    forall i | 0 <= i < |q| ensures KeyRank(q[i].0) < 4 {
      if i < |fp| { assert q[i] == fp[i]; } else { assert q[i] == paging[i - |fp|]; }
    }
    forall i | 0 <= i < |fp| ensures fp[i].0 != "limit" && fp[i].0 != "page" {
      assert KeyRank(fp[i].0) < 2;
    }
    LookupAfter(fp, paging, "limit");
    LookupAfter(fp, paging, "page");
    LookupBefore(fp, paging, "category_id");
    LookupBefore(fp, paging, "subcategory_id");
  }

  /** The count query: only the filter pairs, and never `limit` or `page`. */
  function CountQuery(f: ProductFilter): (q: seq<Pair>)
    ensures |q| <= 2
    ensures InKeyOrder(q)
    ensures forall i :: 0 <= i < |q| ==> KeyRank(q[i].0) < 2
    ensures Lookup(q, "category_id") == OrNull(f.categoryId)
    ensures Lookup(q, "subcategory_id") == OrNull(f.subcategoryId)
    ensures Lookup(q, "limit") == None && Lookup(q, "page") == None
  {
    FilterPairs(f)
  }

  /** A key that the front part lacks is looked up in the back part. */
  lemma {:induction false} LookupAfter(front: seq<Pair>, back: seq<Pair>, key: string)
    requires forall i :: 0 <= i < |front| ==> front[i].0 != key
    ensures Lookup(front + back, key) == Lookup(back, key)
  {
    if front != [] {
      assert (front + back)[1..] == front[1..] + back;
      LookupAfter(front[1..], back, key);
    } else {
      assert front + back == back;
    }
  }

  /** A key that the back part lacks is found, if at all, in the front part. */
  lemma {:induction false} LookupBefore(front: seq<Pair>, back: seq<Pair>, key: string)
    requires forall i :: 0 <= i < |back| ==> back[i].0 != key
    ensures Lookup(front + back, key) == Lookup(front, key)
  {
    if front != [] {
      assert (front + back)[1..] == front[1..] + back;
      LookupBefore(front[1..], back, key);
    } else {
      assert front + back == back;
    }
  }

  /** The count query is the listing query without its paging pairs. */
  lemma CountIsListingWithoutPaging(f: ProductFilter, limit: int, page: int)
    ensures ListingQuery(f, limit, page) == CountQuery(f) + [("limit", IntToDecimal(limit)), ("page", IntToDecimal(page))]
  {
  }

  function ListingPath(f: ProductFilter, limit: int, page: int): string
  {
    ListingPrefix + Serialize(ListingQuery(f, limit, page))
  }

  function CountPath(f: ProductFilter): string
  {
    CountPrefix + Serialize(CountQuery(f))
  }

  /** A server reading the listing URL's query recovers exactly the truthy filters and
      the numeric `limit` and `page`. */
  lemma ListingQueryReadable(f: ProductFilter, limit: int, page: int)
    ensures var path := ListingPath(f, limit, page);
            && path[..|ListingPrefix|] == ListingPrefix
            && Parse(path[|ListingPrefix|..]) == Some(ListingQuery(f, limit, page))
            && Lookup(ListingQuery(f, limit, page), "category_id") == OrNull(f.categoryId)
            && Lookup(ListingQuery(f, limit, page), "subcategory_id") == OrNull(f.subcategoryId)
            && ParseInt(Lookup(ListingQuery(f, limit, page), "limit").value) == Some(limit)
            && ParseInt(Lookup(ListingQuery(f, limit, page), "page").value) == Some(page)
  {
    var path := ListingPath(f, limit, page);
    assert path[|ListingPrefix|..] == Serialize(ListingQuery(f, limit, page));
    ParseSerialize(ListingQuery(f, limit, page));
    IntRoundTrip(limit);
    IntRoundTrip(page);
  }

  /** A server reading the count URL's query recovers exactly the truthy filters. */
  lemma CountQueryReadable(f: ProductFilter)
    ensures var path := CountPath(f);
            && path[..|CountPrefix|] == CountPrefix
            && Parse(path[|CountPrefix|..]) == Some(CountQuery(f))
  {
    var path := CountPath(f);
    assert path[|CountPrefix|..] == Serialize(CountQuery(f));
    ParseSerialize(CountQuery(f));
  }

  /** Two listing calls send the same query string only when they would read back the
      same filters, limit and page. */
  lemma ListingPathInjective(f: ProductFilter, l1: int, p1: int, g: ProductFilter, l2: int, p2: int)
    requires ListingPath(f, l1, p1) == ListingPath(g, l2, p2)
    ensures OrNull(f.categoryId) == OrNull(g.categoryId) && OrNull(f.subcategoryId) == OrNull(g.subcategoryId)
    ensures l1 == l2 && p1 == p2
  {
    var a := ListingPath(f, l1, p1);
    assert a[|ListingPrefix|..] == Serialize(ListingQuery(f, l1, p1));
    assert a[|ListingPrefix|..] == Serialize(ListingQuery(g, l2, p2));
    SerializeInjective(ListingQuery(f, l1, p1), ListingQuery(g, l2, p2));
    IntToDecimalInjective(l1, l2);
    IntToDecimalInjective(p1, p2);
  }

  /** `getProductsByCategory`: one GET of the listing path, settled by the shared rule. */
  function GetProductsByCategory<B>(h: Holder, f: ProductFilter, limit: int, page: int, resp: Response<B>): (r: Exchange<B>)
    ensures r.sent.Some? && r.sent.value.verb == GET
    ensures r.sent.value.authorization == Authorization(h)
    ensures r.sent.value.path == ListingPath(f, limit, page)
    ensures r.outcome == Settle("get products", resp)
  {
    Call(h, GET, ListingPath(f, limit, page), "get products", resp)
  }

  /** `getProductCount`: one GET of the count path; on success it resolves to the body's
      `count` field (`count` stands for reading that field). */
  function GetProductCount<B>(h: Holder, f: ProductFilter, resp: Response<B>, count: B -> int): (r: Exchange<int>)
    ensures r.sent == Some(Request(GET, CountPath(f), Authorization(h)))
    ensures r.outcome.Ok? <==> resp.IsOk()
    ensures r.outcome.Ok? ==> r.outcome.value == count(resp.body)
    ensures r.outcome.Err? ==> r.outcome.error == Settle("get product count", resp).error
  {
    var e := Call(h, GET, CountPath(f), "get product count", resp);
    match e.outcome
    case Ok(body) => Exchange(e.sent, Ok(count(body)))
    case Err(err) => Exchange(e.sent, Err(err))
  }
}
