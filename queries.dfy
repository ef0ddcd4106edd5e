/** The read side: GET /products (list with aggregates), GET /products/:id
    (product with its variants) and GET /variants/:id, as functions of the
    current tables. None of them looks at `deleted_at`. */
module Queries {
  import opened Values
  import opened Rows
  import opened Ordering
  import opened Aggregates

  const ProductNotFound := "Product not found"
  const VariantNotFound := "Variant not found"

  /** `LEFT JOIN categories c ON p.category_id = c.id`, giving `c.name`. */
  function CategoryName(categories: map<int, string>, categoryId: Option<int>): (r: Option<string>)
    ensures r.Some? <==> categoryId.Some? && categoryId.value in categories
    ensures r.Some? ==> r.value == categories[categoryId.value]
  {
    if categoryId.Some? && categoryId.value in categories then Some(categories[categoryId.value]) else None
  }

  /** `SELECT p.*, c.name AS category_name ... WHERE p.id = ?` on a row that exists. */
  function View(products: map<int, Product>, categories: map<int, string>, id: int): ProductView
    requires id in products
  {
    ProductView(products[id], CategoryName(categories, products[id].categoryId))
  }

  /** The ids of the variants whose `product_id` is `pid`. */
  function VariantIdsOf(variants: map<int, Variant>, pid: int): set<int>
  {
    set k | k in variants && variants[k].productId == pid
  }

  /** `COUNT(v.id)` for one product; also the sibling count of the variant delete. */
  function VariantCount(variants: map<int, Variant>, pid: int): (r: nat)
    ensures r > 0 <==> exists k :: k in variants && variants[k].productId == pid
  {
    var mine := VariantIdsOf(variants, pid);
    assert |mine| > 0 ==> exists k :: k in variants && variants[k].productId == pid by {
      if |mine| > 0 {
        HasMember(mine);
      }
    }
    assert (exists k :: k in variants && variants[k].productId == pid) ==> |mine| > 0 by {
      if k :| k in variants && variants[k].productId == pid {
        assert k in mine;
      }
    }
    |mine|
  }

  function VariantStamps(variants: map<int, Variant>): map<int, nat>
  {
    map k | k in variants :: variants[k].createdAt
  }

  function ProductStamps(products: map<int, Product>): map<int, nat>
  {
    map k | k in products :: products[k].createdAt
  }

  /** A position at which a member of a sequence occurs. */
  lemma IndexOf(s: seq<int>, x: int) returns (i: nat)
    requires x in s
    ensures i < |s| && s[i] == x
  {
    i :| 0 <= i < |s| && s[i] == x;
  }

  /** The ids of the product's variants, each once, in (created_at, id) order. */
  function OrderedVariantIds(variants: map<int, Variant>, pid: int): (ids: seq<int>)
    ensures |ids| == VariantCount(variants, pid)
    ensures forall x :: x in ids <==> x in VariantIdsOf(variants, pid)
    ensures forall i :: 0 <= i < |ids| ==> ids[i] in variants && variants[ids[i]].productId == pid
    ensures Ascends(VariantStamps(variants), ids)
  {
    var mine := VariantIdsOf(variants, pid);
    AscendingMembers(VariantStamps(variants), mine);
    Ascending(VariantStamps(variants), mine)
  }

  /** A product whose variants are rowids `base` .. `base + n - 1`, all
      created at one instant, lists them in rowid order. */
  lemma SameInstantInRowidOrder(variants: map<int, Variant>, pid: int, base: int, n: nat, t: nat)
    requires VariantIdsOf(variants, pid) == set k | k in Range(base, n)
    requires forall k :: base <= k < base + n ==> k in variants && variants[k].createdAt == t
    ensures OrderedVariantIds(variants, pid) == Range(base, n)
  {
    SameStampAscending(VariantStamps(variants), base, n, t);
  }

  /** The rows under the given ids, in the order of the ids. */
  function RowsAt(variants: map<int, Variant>, ids: seq<int>): (r: seq<Variant>)
    requires forall i :: 0 <= i < |ids| ==> ids[i] in variants
    ensures |r| == |ids| && forall i :: 0 <= i < |ids| ==> r[i] == variants[ids[i]]
  {
    seq(|ids|, i requires 0 <= i < |ids| => variants[ids[i]])
  }

  /** The product's rows, taken in (created_at, id) order, are in creation order. */
  lemma RowsInCreationOrder(variants: map<int, Variant>, pid: int)
    requires VariantsKeyed(variants)
    ensures var r := RowsAt(variants, OrderedVariantIds(variants, pid));
      forall i, j :: 0 <= i < j < |r| ==> CreatedBefore(r[i], r[j])
  {
    var ids := OrderedVariantIds(variants, pid);
    var r := RowsAt(variants, ids);
    forall i, j | 0 <= i < j < |r|
      ensures CreatedBefore(r[i], r[j])
    {
      assert Precedes(VariantStamps(variants), ids[i], ids[j]);
    }
  }

  /** Every row of the product is among its rows taken in order. */
  lemma RowsComplete(variants: map<int, Variant>, pid: int)
    ensures var r := RowsAt(variants, OrderedVariantIds(variants, pid));
      forall k :: k in variants && variants[k].productId == pid ==> variants[k] in r
  {
    var ids := OrderedVariantIds(variants, pid);
    var r := RowsAt(variants, ids);
    forall k | k in variants && variants[k].productId == pid
      ensures variants[k] in r
    {
      assert k in VariantIdsOf(variants, pid);
      var i := IndexOf(ids, k);
      assert r[i] == variants[k];
    }
  }

  /** `SELECT * FROM variants WHERE product_id = ? ORDER BY created_at ASC`:
      exactly the product's own rows, each once, oldest first. */
  function VariantsOf(variants: map<int, Variant>, pid: int): (r: seq<Variant>)
    requires VariantsKeyed(variants)
    ensures |r| == VariantCount(variants, pid)
    ensures forall i :: 0 <= i < |r| ==>
      r[i].id in variants && variants[r[i].id] == r[i] && r[i].productId == pid
    ensures forall k :: k in variants && variants[k].productId == pid ==> variants[k] in r
    ensures forall i, j :: 0 <= i < j < |r| ==> CreatedBefore(r[i], r[j])
  {
    RowsInCreationOrder(variants, pid);
    RowsComplete(variants, pid);
    RowsAt(variants, OrderedVariantIds(variants, pid))
  }

  /** GET /products/:id: 404 when no row has the id (soft-deleted rows are
      found like any other); otherwise the row, its category name and exactly
      its own variants in creation order. */
  function GetProduct(products: map<int, Product>, variants: map<int, Variant>,
                      categories: map<int, string>, id: int): (r: Response<ProductDetail>)
    requires VariantsKeyed(variants)
    ensures r.Ok? <==> id in products
    ensures !r.Ok? ==> r == NotFound(ProductNotFound)
    ensures r.Ok? ==>
      && r.value.view.product == products[id]
      && r.value.view.categoryName == CategoryName(categories, products[id].categoryId)
      && |r.value.variants| == VariantCount(variants, id)
      && (forall v :: v in r.value.variants <==> v in variants.Values && v.productId == id)
      && forall i, j :: 0 <= i < j < |r.value.variants| ==>
           CreatedBefore(r.value.variants[i], r.value.variants[j])
  {
    if id !in products then NotFound(ProductNotFound)
    else
      var vs := VariantsOf(variants, id);
      assert forall v :: v in variants.Values && v.productId == id ==> v in vs by {
        forall v | v in variants.Values && v.productId == id
          ensures v in vs
        {
          var k :| k in variants && variants[k] == v;
        }
      }
      assert forall v :: v in vs ==> v in variants.Values by {
        forall v | v in vs
          ensures v in variants.Values
        {
          var i :| 0 <= i < |vs| && vs[i] == v;
          assert variants[v.id] == v;
        }
      }
      Ok(ProductDetail(View(products, categories, id), vs))
  }

  /** GET /variants/:id */
  function GetVariant(variants: map<int, Variant>, id: int): (r: Response<Variant>)
    ensures r.Ok? <==> id in variants
    ensures r.Ok? ==> r.value == variants[id]
    ensures !r.Ok? ==> r == NotFound(VariantNotFound)
  {
    if id in variants then Ok(variants[id]) else NotFound(VariantNotFound)
  }

  /** Query-string filters of GET /products. An empty `search` is no filter,
      as `if (search)` skips it; `categoryId` is the parsed `category_id`. */
  datatype ListQuery = ListQuery(search: string, categoryId: Option<int>)

  predicate IsPrefix(needle: string, hay: string)
  {
    |needle| <= |hay| && hay[..|needle|] == needle
  }

  /** `needle` occurs in `hay` starting at position `i`. */
  predicate OccursAt(hay: string, needle: string, i: int)
  {
    0 <= i && i + |needle| <= |hay| && hay[i..i + |needle|] == needle
  }

  /** `needle` occurs in `hay` as a contiguous substring. */
  predicate Contains(hay: string, needle: string): (r: bool)
    ensures r <==> exists i :: OccursAt(hay, needle, i)
    decreases |hay|
  {
    if IsPrefix(needle, hay) then
      assert OccursAt(hay, needle, 0);
      true
    else if hay == [] then
      assert forall i :: !OccursAt(hay, needle, i);
      false
    else
      var later := Contains(hay[1..], needle);
      assert forall i :: OccursAt(hay[1..], needle, i) <==> OccursAt(hay, needle, i + 1) by {
        forall i
          ensures OccursAt(hay[1..], needle, i) <==> OccursAt(hay, needle, i + 1)
        {
          if 0 <= i && i + |needle| <= |hay[1..]| {
            assert hay[1..][i..i + |needle|] == hay[i + 1..i + 1 + |needle|];
          }
        }
      }
      assert !OccursAt(hay, needle, 0);
      assert (exists i :: OccursAt(hay, needle, i)) ==> exists i :: OccursAt(hay[1..], needle, i) by {
        if i :| OccursAt(hay, needle, i) {
          assert OccursAt(hay[1..], needle, i - 1);
        }
      }
      later
  }

  function Fold(fold: char -> char, s: string): (r: string)
    ensures |r| == |s|
  {
    seq(|s|, i requires 0 <= i < |s| => fold(s[i]))
  }

  /** `text LIKE '%search%'`, with the collation's case handling given by `fold`. */
  predicate Like(fold: char -> char, text: string, search: string): (r: bool)
    ensures r <==> exists i :: OccursAt(Fold(fold, text), Fold(fold, search), i)
    ensures search == "" ==> r
  {
    assert search == "" ==> OccursAt(Fold(fold, text), Fold(fold, search), 0);
    Contains(Fold(fold, text), Fold(fold, search))
  }

  /** The WHERE clause the handler assembles: the search over name OR
      description and the category filter, joined with AND. A NULL
      description never matches. */
  predicate Matches(fold: char -> char, q: ListQuery, p: Product): (r: bool)
    ensures q.search == "" && q.categoryId.None? ==> r
    ensures r && q.categoryId.Some? ==> p.categoryId == q.categoryId
    ensures r && q.search != "" ==>
      Like(fold, p.name, q.search) || (p.description.Some? && Like(fold, p.description.value, q.search))
    ensures q.search != "" && p.description.None? && !Like(fold, p.name, q.search) ==> !r
  {
    && (q.search == "" || Like(fold, p.name, q.search) ||
        (p.description.Some? && Like(fold, p.description.value, q.search)))
    && (q.categoryId.None? || p.categoryId == q.categoryId)
  }

  function Prices(vs: seq<Variant>): (r: seq<int>)
    ensures |r| == |vs| && forall i :: 0 <= i < |vs| ==> r[i] == vs[i].priceCents
  {
    seq(|vs|, i requires 0 <= i < |vs| => vs[i].priceCents)
  }

  function Inventories(vs: seq<Variant>): (r: seq<int>)
    ensures |r| == |vs| && forall i :: 0 <= i < |vs| ==> r[i] == vs[i].inventoryCount
  {
    seq(|vs|, i requires 0 <= i < |vs| => vs[i].inventoryCount)
  }

  /** One row of the list: `COUNT(v.id)`, `MIN`/`MAX(v.price_cents)` and
      `COALESCE(SUM(v.inventory_count), 0)` over the product's variants; what
      the aggregates mean is stated by the lemmas below. */
  function Summarize(products: map<int, Product>, variants: map<int, Variant>,
                     categories: map<int, string>, id: int): (r: ProductSummary)
    requires id in products && VariantsKeyed(variants)
    ensures r.view == View(products, categories, id)
    ensures r.variantCount == VariantCount(variants, id)
    ensures r.minPriceCents.None? <==> r.variantCount == 0
    ensures r.maxPriceCents.None? <==> r.variantCount == 0
    ensures r.totalInventory == Sum(Inventories(VariantsOf(variants, id)))
    ensures r.variantCount == 0 ==> r.totalInventory == 0
  {
    var vs := VariantsOf(variants, id);
    ProductSummary(View(products, categories, id), |vs|,
                   Min(Prices(vs)), Max(Prices(vs)), Sum(Inventories(vs)))
  }

  /** `min_price_cents` is the price of one of the product's variants and no
      larger than the price of any of them. */
  lemma SummaryMinPrice(products: map<int, Product>, variants: map<int, Variant>,
                        categories: map<int, string>, id: int)
    requires id in products && VariantsKeyed(variants)
    ensures var m := Summarize(products, variants, categories, id).minPriceCents;
      m.Some? ==>
        (exists k :: k in variants && variants[k].productId == id && variants[k].priceCents == m.value) &&
        forall k :: k in variants && variants[k].productId == id ==> m.value <= variants[k].priceCents
  {
    var vs := VariantsOf(variants, id);
    var prices := Prices(vs);
    var m := Min(prices);
    if m.Some? {
      var i :| 0 <= i < |prices| && prices[i] == m.value;
      assert variants[vs[i].id] == vs[i];
      forall k | k in variants && variants[k].productId == id
        ensures m.value <= variants[k].priceCents
      {
        var v := variants[k];
        assert v in vs;
        var j :| 0 <= j < |vs| && vs[j] == v;
        assert prices[j] == v.priceCents;
      }
    }
  }

  /** `max_price_cents` is the price of one of the product's variants and no
      smaller than the price of any of them. */
  lemma SummaryMaxPrice(products: map<int, Product>, variants: map<int, Variant>,
                        categories: map<int, string>, id: int)
    requires id in products && VariantsKeyed(variants)
    ensures var m := Summarize(products, variants, categories, id).maxPriceCents;
      m.Some? ==>
        (exists k :: k in variants && variants[k].productId == id && variants[k].priceCents == m.value) &&
        forall k :: k in variants && variants[k].productId == id ==> variants[k].priceCents <= m.value
  {
    var vs := VariantsOf(variants, id);
    var prices := Prices(vs);
    var m := Max(prices);
    if m.Some? {
      var i :| 0 <= i < |prices| && prices[i] == m.value;
      assert variants[vs[i].id] == vs[i];
      forall k | k in variants && variants[k].productId == id
        ensures variants[k].priceCents <= m.value
      {
        var v := variants[k];
        assert v in vs;
        var j :| 0 <= j < |vs| && vs[j] == v;
        assert prices[j] == v.priceCents;
      }
    }
  }

  /** With non-negative stock, `total_inventory` is non-negative and at least
      the stock of each of the product's variants. */
  lemma SummaryTotalInventory(products: map<int, Product>, variants: map<int, Variant>,
                              categories: map<int, string>, id: int)
    requires id in products && VariantsKeyed(variants)
    requires forall k :: k in variants && variants[k].productId == id ==> variants[k].inventoryCount >= 0
    ensures var t := Summarize(products, variants, categories, id).totalInventory;
      t >= 0 && forall k :: k in variants && variants[k].productId == id ==> variants[k].inventoryCount <= t
  {
    var vs := VariantsOf(variants, id);
    var stock := Inventories(vs);
    forall i | 0 <= i < |stock|
      ensures stock[i] >= 0
    {
      assert variants[vs[i].id] == vs[i];
    }
    forall k | k in variants && variants[k].productId == id
      ensures variants[k].inventoryCount <= Sum(stock)
    {
      var v := variants[k];
      assert v in vs;
      var j :| 0 <= j < |vs| && vs[j] == v;
      assert stock[j] == v.inventoryCount;
    }
  }

  lemma InventoriesConcat(a: seq<Variant>, b: seq<Variant>)
    ensures Inventories(a + b) == Inventories(a) + Inventories(b)
  {
  }

  /** The stock column around the row at `j`, with and without that row. */
  lemma InventoriesSplit(b: seq<Variant>, j: int)
    requires 0 <= j < |b|
    ensures Inventories(b) == Inventories(b[..j]) + [b[j].inventoryCount] + Inventories(b[j + 1..])
    ensures Inventories(b[..j] + b[j + 1..]) == Inventories(b[..j]) + Inventories(b[j + 1..])
  {
    assert b == b[..j] + [b[j]] + b[j + 1..];
    InventoriesConcat(b[..j] + [b[j]], b[j + 1..]);
    InventoriesConcat(b[..j], [b[j]]);
    InventoriesConcat(b[..j], b[j + 1..]);
  }

  lemma InventoriesHead(a: seq<Variant>)
    requires a != []
    ensures Inventories(a) == [a[0].inventoryCount] + Inventories(a[1..])
  {
  }

  /** Putting one value back on each side of a rearrangement keeps it one. */
  lemma MultisetStep(whole: seq<int>, tail: seq<int>, other: seq<int>, left: seq<int>, right: seq<int>, v: int)
    requires whole == [v] + tail && other == left + [v] + right
    requires multiset(tail) == multiset(left + right)
    ensures multiset(whole) == multiset(other)
  {
  }

  /** Rearranging rows rearranges their stock column the same way. */
  lemma {:induction false} InventoriesPermute(a: seq<Variant>, b: seq<Variant>)
    requires multiset(a) == multiset(b)
    ensures multiset(Inventories(a)) == multiset(Inventories(b))
    decreases |a|
  {
    if a == [] {
      assert |b| == |multiset(b)| == 0;
    } else {
      var x := a[0];
      assert x in multiset(b);
      var j :| 0 <= j < |b| && b[j] == x;
      var rest := b[..j] + b[j + 1..];
      RemoveAt(b, j);
      RemoveAt(a, 0);
      assert a[..0] + a[1..] == a[1..];
      InventoriesPermute(a[1..], rest);
      InventoriesHead(a);
      InventoriesSplit(b, j);
      var left, right := Inventories(b[..j]), Inventories(b[j + 1..]);
      MultisetStep(Inventories(a), Inventories(a[1..]), Inventories(b), left, right, x.inventoryCount);
    }
  }

  /** `total_inventory` is the sum of the product's stock whatever order its
      rows are taken in. */
  lemma TotalInventoryAnyOrder(products: map<int, Product>, variants: map<int, Variant>,
                               categories: map<int, string>, id: int, vs: seq<Variant>)
    requires id in products && VariantsKeyed(variants)
    requires multiset(vs) == multiset(VariantsOf(variants, id))
    ensures Summarize(products, variants, categories, id).totalInventory == Sum(Inventories(vs))
  {
    InventoriesPermute(vs, VariantsOf(variants, id));
    SumPermutation(Inventories(vs), Inventories(VariantsOf(variants, id)));
  }

  /** The ids of the products that pass the filters. */
  function MatchingIds(products: map<int, Product>, fold: char -> char, q: ListQuery): set<int>
  {
    set k | k in products && Matches(fold, q, products[k])
  }

  /** The ids of the products that pass the filters, each once, newest first. */
  function ListedIds(products: map<int, Product>, fold: char -> char, q: ListQuery): (ids: seq<int>)
    requires ProductsKeyed(products)
    ensures forall x :: x in ids <==> x in MatchingIds(products, fold, q)
    ensures forall i :: 0 <= i < |ids| ==> ids[i] in products
    ensures forall i, j :: 0 <= i < j < |ids| ==> ListedBefore(products[ids[i]], products[ids[j]])
  {
    var stamps := ProductStamps(products);
    var matching := MatchingIds(products, fold, q);
    var ids := Descending(stamps, matching);
    assert forall i :: 0 <= i < |ids| ==> ids[i] in products by {
      forall i | 0 <= i < |ids|
        ensures ids[i] in products
      {
        var x := ids[i];
        assert x in ids;
      }
    }
    assert forall i, j :: 0 <= i < j < |ids| ==> ListedBefore(products[ids[i]], products[ids[j]]) by {
      forall i, j | 0 <= i < j < |ids|
        ensures ListedBefore(products[ids[i]], products[ids[j]])
      {
        assert Precedes(stamps, ids[j], ids[i]);
      }
    }
    ids
  }

  /** The summaries of the given products, in the given order. */
  function SummariesOf(products: map<int, Product>, variants: map<int, Variant>,
                       categories: map<int, string>, ids: seq<int>): (r: seq<ProductSummary>)
    requires VariantsKeyed(variants)
    requires forall i :: 0 <= i < |ids| ==> ids[i] in products
    ensures |r| == |ids|
    ensures forall i :: 0 <= i < |ids| ==> r[i] == Summarize(products, variants, categories, ids[i])
    ensures forall i :: 0 <= i < |ids| ==> r[i].view.product == products[ids[i]]
  {
    seq(|ids|, i requires 0 <= i < |ids| => Summarize(products, variants, categories, ids[i]))
  }

  /** Each listed summary is a stored product that passes the filters. */
  lemma ListedRowsMatch(products: map<int, Product>, variants: map<int, Variant>,
                        categories: map<int, string>, fold: char -> char, q: ListQuery)
    requires ProductsKeyed(products) && VariantsKeyed(variants)
    ensures var ids := ListedIds(products, fold, q);
      var r := SummariesOf(products, variants, categories, ids);
      forall i :: 0 <= i < |r| ==>
        && r[i].view.product.id in products
        && r[i].view.product == products[r[i].view.product.id]
        && Matches(fold, q, r[i].view.product)
        && r[i] == Summarize(products, variants, categories, r[i].view.product.id)
  {
    var ids := ListedIds(products, fold, q);
    var r := SummariesOf(products, variants, categories, ids);
    forall i | 0 <= i < |r|
      ensures r[i].view.product.id == ids[i] && Matches(fold, q, products[ids[i]])
    {
      var x := ids[i];
      assert x in ids;
      assert x in MatchingIds(products, fold, q);
    }
  }

  /** Each stored product that passes the filters has a summary in the list. */
  lemma MatchingRowsListed(products: map<int, Product>, variants: map<int, Variant>,
                           categories: map<int, string>, fold: char -> char, q: ListQuery)
    requires ProductsKeyed(products) && VariantsKeyed(variants)
    ensures var r := SummariesOf(products, variants, categories, ListedIds(products, fold, q));
      forall k :: k in products && Matches(fold, q, products[k]) ==>
        exists i :: 0 <= i < |r| && r[i].view.product.id == k
  {
    var ids := ListedIds(products, fold, q);
    var r := SummariesOf(products, variants, categories, ids);
    forall k | k in products && Matches(fold, q, products[k])
      ensures exists i :: 0 <= i < |r| && r[i].view.product.id == k
    {
      assert k in MatchingIds(products, fold, q);
      var i := IndexOf(ids, k);
      assert r[i].view.product == products[k];
    }
  }

  /** GET /products: a row for every stored product that passes the filters
      (soft-deleted ones included) and for no other, each with its own
      aggregates, newest first. */
  function ListProducts(products: map<int, Product>, variants: map<int, Variant>,
                        categories: map<int, string>, fold: char -> char, q: ListQuery): (r: seq<ProductSummary>)
    requires ProductsKeyed(products) && VariantsKeyed(variants)
    ensures forall i :: 0 <= i < |r| ==>
      && r[i].view.product.id in products
      && r[i].view.product == products[r[i].view.product.id]
      && Matches(fold, q, r[i].view.product)
      && r[i] == Summarize(products, variants, categories, r[i].view.product.id)
    ensures forall k :: k in products && Matches(fold, q, products[k]) ==>
      exists i :: 0 <= i < |r| && r[i].view.product.id == k
    ensures forall i, j :: 0 <= i < j < |r| ==> ListedBefore(r[i].view.product, r[j].view.product)
  {
    ListedRowsMatch(products, variants, categories, fold, q);
    MatchingRowsListed(products, variants, categories, fold, q);
    SummariesOf(products, variants, categories, ListedIds(products, fold, q))
  }
}
