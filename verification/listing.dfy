/** GET /products: the optional search filter, the newest-first order,
    offset pagination and the pagination summary. */
module Listing {
  import opened Base
  import opened Text
  import opened ProductSchema
  import Catalog

  function Min(a: int, b: int): int {
    if a <= b then a else b
  }

  function Abs(a: int): nat {
    if a < 0 then -a else a
  }

  /** The query string after defaulting. A missing `search` reads as "",
      which, like an empty one, applies no filter. Query values are taken
      as the integers they spell. */
  datatype Query = Query(search: string, page: int, limit: int)

  /** `page` defaults to 1 and `limit` to 10. */
  function QueryOf(search: Option<string>, page: Option<int>, limit: Option<int>): (q: Query)
    ensures q.search == (if search.Some? then search.value else "")
    ensures q.page == (if page.Some? then page.value else 1)
    ensures q.limit == (if limit.Some? then limit.value else 10)
  {
    Query(
      match search case Some(t) => t case None => "",
      match page case Some(n) => n case None => 1,
      match limit case Some(n) => n case None => 10
    )
  }

  /** The number of documents skipped: (page - 1) * limit. The first page
      skips nothing, and the skip is negative exactly when the page and the
      limit pull in opposite directions. */
  function Skip(q: Query): (n: int)
    ensures q.page == 1 ==> n == 0
    ensures n < 0 <==> (q.page < 1 && q.limit > 0) || (q.page > 1 && q.limit < 0)
  {
    var n := (q.page - 1) * q.limit;
    SignOfProduct(q.page - 1, q.limit);
    n
  }

  /** A product of two integers is negative exactly when one factor is
      positive and the other negative. */
  lemma SignOfProduct(a: int, b: int)
    ensures a * b < 0 <==> (a < 0 && b > 0) || (a > 0 && b < 0)
  {
    if a > 0 && b > 0 { MulMonotone(1, a, b); }
    if a < 0 && b < 0 { assert a * b == (-a) * (-b); MulMonotone(1, -a, -b); }
    if a > 0 && b < 0 { assert a * b == -(a * (-b)); MulMonotone(1, a, -b); }
    if a < 0 && b > 0 { assert a * b == -((-a) * b); MulMonotone(1, -a, b); }
  }

  /** The search condition: with a non-empty term, the title or the
      description contains it, ignoring ASCII case. */
  predicate Matches(p: Product, term: string) {
    term == "" || ContainsIgnoringCase(p.title, term) || ContainsIgnoringCase(p.description, term)
  }

  /** The documents satisfying the search condition, in store order. */
  function Filter(s: seq<Product>, term: string): (r: seq<Product>)
    ensures forall p :: p in r <==> p in s && Matches(p, term)
    ensures |r| <= |s|
    ensures Catalog.UniqueIds(s) ==> Catalog.UniqueIds(r)
    ensures term == "" ==> r == s
  {
    if s == [] then []
    else
      var rest := Filter(s[1..], term);
      assert s == [s[0]] + s[1..];
      assert Catalog.UniqueIds(s) ==> Catalog.UniqueIds(s[1..]) && forall p :: p in s[1..] ==> p.id != s[0].id;
      if Matches(s[0], term) then [s[0]] + rest else rest
  }

  /** Non-increasing createdAt: newest first. */
  predicate NewestFirst(s: seq<Product>) {
    forall i, j :: 0 <= i < j < |s| ==> s[i].createdAt >= s[j].createdAt
  }

  /** Inserts `p` in front of the first document that is not newer than it. */
  function Insert(p: Product, sorted: seq<Product>): (r: seq<Product>)
    requires NewestFirst(sorted)
    ensures NewestFirst(r)
    ensures |r| == |sorted| + 1
    ensures forall q :: q in r <==> q == p || q in sorted
  {
    if sorted == [] then [p]
    else if p.createdAt >= sorted[0].createdAt then [p] + sorted
    else
      var rest := Insert(p, sorted[1..]);
      assert forall q :: q in rest ==> sorted[0].createdAt >= q.createdAt;
      [sorted[0]] + rest
  }

  lemma {:induction false} InsertPermutes(p: Product, sorted: seq<Product>)
    requires NewestFirst(sorted)
    ensures multiset(Insert(p, sorted)) == multiset(sorted) + multiset{p}
  {
    if sorted != [] && p.createdAt < sorted[0].createdAt {
      InsertPermutes(p, sorted[1..]);
      assert sorted == [sorted[0]] + sorted[1..];
    }
  }

  lemma {:induction false} InsertKeepsUniqueIds(p: Product, sorted: seq<Product>)
    requires NewestFirst(sorted) && Catalog.UniqueIds(sorted)
    requires forall q :: q in sorted ==> q.id != p.id
    ensures Catalog.UniqueIds(Insert(p, sorted))
  {
    if sorted != [] && p.createdAt < sorted[0].createdAt {
      InsertKeepsUniqueIds(p, sorted[1..]);
      var rest := Insert(p, sorted[1..]);
      assert forall q :: q in rest ==> q.id != sorted[0].id;
    }
  }

  /** Stable insertion sort, newest first: documents with equal createdAt
      keep their store order. */
  function SortNewestFirst(s: seq<Product>): (r: seq<Product>)
    ensures NewestFirst(r)
    ensures |r| == |s|
    ensures forall q :: q in r <==> q in s
  {
    if s == [] then []
    else
      assert s == [s[0]] + s[1..];
      Insert(s[0], SortNewestFirst(s[1..]))
  }

  /** The sort rearranges its input: same documents, same multiplicities. */
  lemma {:induction false} SortPermutes(s: seq<Product>)
    ensures multiset(SortNewestFirst(s)) == multiset(s)
  {
    if s != [] {
      SortPermutes(s[1..]);
      InsertPermutes(s[0], SortNewestFirst(s[1..]));
      assert s == [s[0]] + s[1..];
    }
  }

  lemma {:induction false} SortKeepsUniqueIds(s: seq<Product>)
    requires Catalog.UniqueIds(s)
    ensures Catalog.UniqueIds(SortNewestFirst(s))
  {
    if s != [] {
      assert s == [s[0]] + s[1..];
      SortKeepsUniqueIds(s[1..]);
      InsertKeepsUniqueIds(s[0], SortNewestFirst(s[1..]));
    }
  }

  /** The cursor's limit: 0 means no limit, a negative limit returns as
      many documents as its absolute value. */
  function Cap(limit: int): (r: Option<nat>)
    ensures r.None? <==> limit == 0
    ensures r.Some? ==> r.value > 0 && (r.value == limit || r.value == -limit)
  {
    if limit == 0 then None else Some(Abs(limit))
  }

  /** skip(skip).limit(limit) on an ordered result. */
  function Window(ordered: seq<Product>, skip: nat, limit: int): (r: seq<Product>)
    ensures var from := Min(skip, |ordered|);
      && from + |r| <= |ordered|
      && r == ordered[from..from + |r|]
      && (Cap(limit).None? ==> |r| == |ordered| - from)
      && (Cap(limit).Some? ==> |r| == Min(Cap(limit).value, |ordered| - from))
  {
    var rest := ordered[Min(skip, |ordered|)..];
    match Cap(limit)
    case None => rest
    case Some(n) => if n >= |rest| then rest else rest[..n]
  }

  /** Math.ceil(total / limit). A zero limit yields Infinity or NaN, which
      the JSON reply renders as null (None here). */
  function TotalPages(total: nat, limit: int): (r: Option<int>)
    ensures r.None? <==> limit == 0
    ensures limit > 0 ==> (r.value - 1) * limit < total <= r.value * limit
    ensures limit < 0 ==> r.value * limit <= total < (r.value - 1) * limit
  {
    if limit == 0 then None
    else if limit > 0 then
      var n := (total + limit - 1) / limit;
      assert total + limit - 1 == n * limit + (total + limit - 1) % limit;
      Some(n)
    else
      var m := -limit;
      var n := total / m;
      assert total == n * m + total % m;
      assert -n * limit == n * m;
      assert -(n + 1) * limit == n * m + m;
      Some(-n)
  }

  /** The pagination summary of a reply. */
  datatype Pagination = Pagination(currentPage: int, totalPages: Option<int>, totalProducts: nat, hasMore: bool)

  /** What a listing request answers: 200 with a page, or 500 when the
      store rejects the query (a negative skip). */
  datatype ListReply = Listed(products: seq<Product>, pagination: Pagination) | ListFailed
  {
    function Status(): int {
      if Listed? then 200 else 500
    }
  }

  /** The matching documents in the order the listing returns them. */
  function Ordered(s: Catalog.Store, search: string): (r: seq<Product>)
    ensures NewestFirst(r)
    ensures forall p :: p in r <==> p in s && Matches(p, search)
    ensures |r| == |Filter(s, search)|
  {
    SortNewestFirst(Filter(s, search))
  }

  lemma OrderedKeepsUniqueIds(s: Catalog.Store, search: string)
    requires Catalog.UniqueIds(s)
    ensures Catalog.UniqueIds(Ordered(s, search))
  {
    SortKeepsUniqueIds(Filter(s, search));
  }

  /** GET /products with query `q` over the store `s`. */
  function ListProducts(s: Catalog.Store, q: Query): (r: ListReply)
    ensures r.ListFailed? <==> Skip(q) < 0
    ensures r.Listed? ==> forall p :: p in r.products ==> p in s && Matches(p, q.search)
    ensures r.Listed? ==> r.pagination.currentPage == q.page
    ensures r.Listed? ==> r.pagination.totalProducts == |Filter(s, q.search)|
    ensures r.Listed? ==> (r.pagination.hasMore <==> Skip(q) + |r.products| < r.pagination.totalProducts)
    ensures r.Listed? && q.limit > 0 ==> |r.products| <= q.limit
  {
    var skip := Skip(q);
    if skip < 0 then ListFailed
    else
      var ordered := Ordered(s, q.search);
      var products := Window(ordered, skip, q.limit);
      var total := |ordered|;
      assert forall p :: p in products ==> p in ordered;
      Listed(products, Pagination(q.page, TotalPages(total, q.limit), total, skip + |products| < total))
  }

  /** A listed page is a contiguous run of the ordered matching documents,
      starting at the skip (or at the end when the skip passes it), so it is
      newest first too. */
  lemma PageIsRun(s: Catalog.Store, q: Query)
    requires Skip(q) >= 0
    ensures var r := ListProducts(s, q); var ordered := Ordered(s, q.search);
      var from := Min(Skip(q), |ordered|);
      && from + |r.products| <= |ordered|
      && r.products == ordered[from..from + |r.products|]
      && NewestFirst(r.products)
      && r.pagination.totalPages == TotalPages(|ordered|, q.limit)
  {
    var ordered := Ordered(s, q.search);
    var from := Min(Skip(q), |ordered|);
    var products := ListProducts(s, q).products;
    assert forall i :: 0 <= i < |products| ==> products[i] == ordered[from + i];
  }

  lemma MulMonotone(a: int, b: int, l: int)
    requires a <= b && l >= 0
    ensures a * l <= b * l
  {
    assert b * l - a * l == (b - a) * l;
  }

  /** With page >= 1 and limit >= 1 a page is exactly the slice
      [skip, skip + limit) of the ordered matching documents (cut at the
      end), so at most `limit` documents are returned. */
  lemma PageIsSlice(s: Catalog.Store, q: Query)
    requires q.page >= 1 && q.limit >= 1
    ensures Skip(q) >= 0
    ensures ListProducts(s, q).Listed?
    ensures var ordered := Ordered(s, q.search);
      ListProducts(s, q).products == ordered[Min(Skip(q), |ordered|)..Min(Skip(q) + q.limit, |ordered|)]
  {
    MulMonotone(0, q.page - 1, q.limit);
    PageIsRun(s, q);
  }

  /** Without parameters the first ten documents, newest first, are listed. */
  lemma DefaultQuery(s: Catalog.Store)
    ensures QueryOf(None, None, None) == Query("", 1, 10)
    ensures ListProducts(s, Query("", 1, 10)).Listed?
    ensures ListProducts(s, Query("", 1, 10)).products == Ordered(s, "")[..Min(10, |s|)]
    ensures ListProducts(s, Query("", 1, 10)).pagination.totalProducts == |s|
  {
    PageIsSlice(s, Query("", 1, 10));
  }

  /** Consecutive pages: page p ends where page p + 1 starts, and later
      pages start later still. */
  lemma LaterPageStartsLater(p1: int, p2: int, limit: int)
    requires limit >= 1 && 1 <= p1 < p2
    ensures (p1 - 1) * limit + limit <= (p2 - 1) * limit
  {
    MulMonotone(p1, p2 - 1, limit);
    assert (p1 - 1) * limit + limit == p1 * limit;
  }

  /** Two runs of a sequence with unique ids that do not overlap share no id. */
  lemma DisjointRuns(o: seq<Product>, a1: nat, b1: nat, a2: nat, b2: nat)
    requires Catalog.UniqueIds(o)
    requires a1 <= b1 <= a2 <= b2 <= |o|
    ensures forall x, y :: (x in o[a1..b1] && y in o[a2..b2]) ==> x.id != y.id
  {
    forall x, y | x in o[a1..b1] && y in o[a2..b2]
      ensures x.id != y.id
    {
      var i :| a1 <= i < b1 && o[i] == x;
      var j :| a2 <= j < b2 && o[j] == y;
    }
  }

  /** For a fixed store and limit, two different pages share no product
      id: page p covers positions [(p-1)*limit, p*limit) of one fixed order. */
  lemma PagesDisjoint(s: Catalog.Store, search: string, limit: int, p1: int, p2: int)
    requires Catalog.UniqueIds(s)
    requires limit >= 1 && 1 <= p1 < p2
    ensures ListProducts(s, Query(search, p1, limit)).Listed?
    ensures ListProducts(s, Query(search, p2, limit)).Listed?
    ensures forall x, y ::
      (x in ListProducts(s, Query(search, p1, limit)).products &&
       y in ListProducts(s, Query(search, p2, limit)).products) ==> x.id != y.id
  {
    var q1 := Query(search, p1, limit);
    var q2 := Query(search, p2, limit);
    PageIsSlice(s, q1);
    PageIsSlice(s, q2);
    OrderedKeepsUniqueIds(s, search);
    LaterPageStartsLater(p1, p2, limit);
    var o := Ordered(s, search);
    DisjointRuns(o, Min(Skip(q1), |o|), Min(Skip(q1) + limit, |o|), Min(Skip(q2), |o|), Min(Skip(q2) + limit, |o|));
  }

  /** The arithmetic behind hasMore: with totalPages the least whole number
      of pages holding `total` documents, page * limit < total holds exactly
      before the last page. */
  lemma BeforeLastPage(page: int, limit: int, total: int, pages: int)
    requires page >= 1 && limit >= 1
    requires (pages - 1) * limit < total <= pages * limit
    ensures (page - 1) * limit + limit < total <==> page < pages
  {
    assert (page - 1) * limit + limit == page * limit;
    if page < pages {
      MulMonotone(page, pages - 1, limit);
    } else {
      MulMonotone(pages, page, limit);
    }
  }

  /** The end of a run cut at `total` is before `total` exactly when the
      uncut end is. */
  lemma RunEndsEarly(skip: int, limit: int, total: int)
    requires skip >= 0 && limit >= 1 && total >= 0
    ensures skip + (Min(skip + limit, total) - Min(skip, total)) < total <==> skip + limit < total
  {
  }

  /** For page >= 1 and limit >= 1, hasMore holds exactly when the page is
      not the last one: page < totalPages. */
  lemma HasMoreIffBeforeLastPage(s: Catalog.Store, q: Query)
    requires q.page >= 1 && q.limit >= 1
    ensures ListProducts(s, q).Listed?
    ensures ListProducts(s, q).pagination.hasMore <==> q.page < ListProducts(s, q).pagination.totalPages.value
  {
    PageIsSlice(s, q);
    PageIsRun(s, q);
    var r := ListProducts(s, q);
    var t := r.pagination.totalProducts;
    var skip := Skip(q);
    assert |r.products| == Min(skip + q.limit, t) - Min(skip, t);
    RunEndsEarly(skip, q.limit, t);
    BeforeLastPage(q.page, q.limit, t, r.pagination.totalPages.value);
  }

  /** The search ignores the case of the term. */
  lemma SearchIgnoresTermCase(p: Product, term: string)
    ensures Matches(p, Lower(term)) <==> Matches(p, term)
  {
    LowerIdempotent(term);
  }

  lemma LowerIdempotent(s: string)
    ensures Lower(Lower(s)) == Lower(s)
  {
  }

  /** With an empty search every stored document is counted. */
  lemma EmptySearchCountsAll(s: Catalog.Store, q: Query)
    requires q.search == "" && Skip(q) >= 0
    ensures ListProducts(s, q).pagination.totalProducts == |s|
  {
  }

  /** The order the store may use for sort({createdAt: -1}): any
      arrangement of the matching documents that is newest first. Documents
      with equal createdAt may come in either order, and two requests need
      not agree on it. */
  predicate AdmissibleOrder(matching: seq<Product>, order: seq<Product>) {
    multiset(order) == multiset(matching) && NewestFirst(order)
  }

  /** The page the store returns under a given admissible order. */
  function PageUnder(order: seq<Product>, page: int, limit: int): (r: seq<Product>)
    requires page >= 1 && limit >= 1
    ensures |r| <= limit
  {
    MulMonotone(0, page - 1, limit);
    Window(order, (page - 1) * limit, limit)
  }

  /** As the code sorts, on createdAt alone, two products created at the
      same instant can be listed on page 1 by one request and on page 2 by
      the next: the pages of one unchanged catalog overlap. */
  lemma TiedTimestampsOverlapPages()
    ensures var a := Product("a", "Mug", 9.0, "A ceramic mug", "m.jpg", 5, 5);
      var b := Product("b", "Cup", 4.0, "A paper cup", "c.jpg", 5, 5);
      && Catalog.UniqueIds([a, b])
      && AdmissibleOrder([a, b], [a, b])
      && AdmissibleOrder([a, b], [b, a])
      && PageUnder([a, b], 1, 1) == [a]
      && PageUnder([b, a], 2, 1) == [a]
  {
    var a := Product("a", "Mug", 9.0, "A ceramic mug", "m.jpg", 5, 5);
    var b := Product("b", "Cup", 4.0, "A paper cup", "c.jpg", 5, 5);
    assert [a, b][1..] == [b];
    assert [b, a][1..] == [a];
  }

  /** The listing's order is one of the orders the store may use, fixed as
      a function of the store: ties keep store order. */
  lemma OrderedIsAdmissible(s: Catalog.Store, search: string)
    ensures AdmissibleOrder(Filter(s, search), Ordered(s, search))
  {
    SortPermutes(Filter(s, search));
  }
}
