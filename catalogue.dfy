/** The catalogue store: the products and variants tables, the category-name
    lookup, a logical clock standing for `datetime('now')` and the rowid
    counters, with the write routes of products.ts and variants.ts as methods
    that change it in place. */
module Store {
  import opened Values
  import opened Rows
  import opened Ordering
  import opened Validation
  import opened Queries
  import opened Aggregates

  const SkusInUse := "One or more SKUs are already in use."
  const LastVariant := "Cannot delete the last variant of a product"
  const UniqueSku := "UNIQUE constraint failed: variants.sku"
  const NotNullSku := "NOT NULL constraint failed: variants.sku"
  const NotNullName := "NOT NULL constraint failed: variants.name"

  // ---------------------------------------------------------------------------
  // Store invariants

  /** The SKUs held by the variants table. */
  function SkuSet(variants: map<int, Variant>): set<string>
  {
    set k | k in variants :: variants[k].sku
  }

  /** `UNIQUE(sku)`: no two variant rows share a SKU. */
  predicate SkusUnique(variants: map<int, Variant>)
  {
    forall a, b :: a in variants && b in variants && a != b ==> variants[a].sku != variants[b].sku
  }

  /** Every variant belongs to a product row. */
  predicate VariantsOwned(products: map<int, Product>, variants: map<int, Variant>)
  {
    forall k :: k in variants ==> variants[k].productId in products
  }

  /** Prices and stock are never negative. */
  predicate AmountsValid(variants: map<int, Variant>)
  {
    forall k :: k in variants ==> variants[k].priceCents >= 0 && variants[k].inventoryCount >= 0
  }

  /** Every product has at least one variant. */
  predicate NeverEmpty(products: map<int, Product>, variants: map<int, Variant>)
  {
    forall p :: p in products ==> VariantCount(variants, p) >= 1
  }

  /** Row ids lie below the next rowid, and no stamp lies in the future. */
  predicate Bounded(products: map<int, Product>, variants: map<int, Variant>,
                    clock: nat, nextProductId: int, nextVariantId: int)
  {
    && (forall k :: k in products ==> k < nextProductId)
    && (forall k :: k in variants ==> k < nextVariantId)
    && (forall k :: k in products ==> products[k].createdAt <= clock && products[k].updatedAt <= clock)
    && (forall k :: k in variants ==> variants[k].createdAt <= clock && variants[k].updatedAt <= clock)
  }

  predicate Consistent(products: map<int, Product>, variants: map<int, Variant>,
                       clock: nat, nextProductId: int, nextVariantId: int)
  {
    && ProductsKeyed(products)
    && VariantsKeyed(variants)
    && SkusUnique(variants)
    && VariantsOwned(products, variants)
    && AmountsValid(variants)
    && NeverEmpty(products, variants)
    && Bounded(products, variants, clock, nextProductId, nextVariantId)
  }

  /** A superset of a set is at least as large. */
  lemma SubsetCard(a: set<int>, b: set<int>)
    requires a <= b
    ensures |a| <= |b|
  {
    assert b == a + (b - a);
  }

  // ---------------------------------------------------------------------------
  // POST /products

  /** The product row the insert creates, stamped `now`. */
  function NewProductRow(id: int, np: NewProduct, now: nat): Product
  {
    Product(id, np.name, np.description, np.categoryId, np.status, None, now, now)
  }

  /** The variant row one insert of the loop creates, stamped `now`. */
  function NewVariantRow(id: int, productId: int, v: NewVariant, now: nat): Variant
  {
    Variant(id, productId, v.sku, v.name, v.priceCents, v.inventoryCount, now, now)
  }

  /** The rows the per-variant inserts add, the i-th under rowid `first + i`. */
  function InsertedRows(productId: int, first: int, now: nat, vs: seq<NewVariant>): map<int, Variant>
    decreases |vs|
  {
    if vs == [] then map[]
    else
      var last := |vs| - 1;
      InsertedRows(productId, first, now, vs[..last])[first + last := NewVariantRow(first + last, productId, vs[last], now)]
  }

  /** The inserted rows are exactly rowids `first` .. `first + |vs| - 1`,
      each holding its input. */
  lemma {:induction false} InsertedRowsAt(productId: int, first: int, now: nat, vs: seq<NewVariant>)
    ensures forall k :: k in InsertedRows(productId, first, now, vs) <==> first <= k < first + |vs|
    ensures forall k :: first <= k < first + |vs| ==>
      InsertedRows(productId, first, now, vs)[k] == NewVariantRow(k, productId, vs[k - first], now)
    decreases |vs|
  {
    if vs != [] {
      var last := |vs| - 1;
      InsertedRowsAt(productId, first, now, vs[..last]);
      assert forall j :: 0 <= j < last ==> vs[..last][j] == vs[j];
    }
  }

  /** One more insert of the loop extends the inserted rows by the next input. */
  lemma InsertStep(saved: map<int, Variant>, productId: int, first: int, now: nat,
                   vs: seq<NewVariant>, i: int)
    requires 0 <= i < |vs|
    ensures (saved + InsertedRows(productId, first, now, vs[..i]))[first + i := NewVariantRow(first + i, productId, vs[i], now)]
         == saved + InsertedRows(productId, first, now, vs[..i + 1])
  {
    assert vs[..i + 1][..i] == vs[..i];
  }

  /** The SKUs of a batch are new to the table and pairwise distinct, so no
      insert of the transaction hits `UNIQUE(sku)`. */
  predicate SkusFree(existing: set<string>, vs: seq<NewVariant>)
  {
    && (forall i :: 0 <= i < |vs| ==> vs[i].sku !in existing)
    && (forall i, j :: 0 <= i < j < |vs| ==> vs[i].sku != vs[j].sku)
  }

  /** An insert whose SKU is already in the table, after the earlier inserts of
      the batch, shows that the batch was not free of clashes. */
  lemma ClashBreaksFree(saved: map<int, Variant>, productId: int, first: int, now: nat,
                        vs: seq<NewVariant>, i: int)
    requires 0 <= i < |vs|
    requires vs[i].sku in SkuSet(saved + InsertedRows(productId, first, now, vs[..i]))
    ensures !SkusFree(SkuSet(saved), vs)
  {
    var inserted := InsertedRows(productId, first, now, vs[..i]);
    InsertedRowsAt(productId, first, now, vs[..i]);
    var all := saved + inserted;
    var k :| k in all && all[k].sku == vs[i].sku;
    if k in inserted {
      var j := k - first;
      assert vs[..i][j] == vs[j];
      assert vs[j].sku == vs[i].sku;
    } else {
      assert saved[k].sku in SkuSet(saved);
    }
  }

  /** An insert whose SKU is not yet in the table keeps the batch free of
      clashes, when the batch's rowids lie above the table's. */
  lemma FreeExtends(saved: map<int, Variant>, productId: int, first: int, now: nat,
                    vs: seq<NewVariant>, i: int)
    requires 0 <= i < |vs|
    requires forall k :: k in saved ==> k < first
    requires SkusFree(SkuSet(saved), vs[..i])
    requires vs[i].sku !in SkuSet(saved + InsertedRows(productId, first, now, vs[..i]))
    ensures SkusFree(SkuSet(saved), vs[..i + 1])
  {
    var inserted := InsertedRows(productId, first, now, vs[..i]);
    InsertedRowsAt(productId, first, now, vs[..i]);
    var all := saved + inserted;
    var next := vs[..i + 1];
    forall j | 0 <= j < i + 1
      ensures next[j].sku !in SkuSet(saved)
    {
      if j < i {
        assert next[j] == vs[..i][j];
      } else {
        assert forall k :: k in saved ==> all[k] == saved[k];
      }
    }
    forall j, l | 0 <= j < l < i + 1
      ensures next[j].sku != next[l].sku
    {
      if l < i {
        assert next[j] == vs[..i][j] && next[l] == vs[..i][l];
      } else {
        var k := first + j;
        assert all[k] == inserted[k] == NewVariantRow(k, productId, vs[..i][j], now);
        assert next[j].sku in SkuSet(all);
      }
    }
  }

  /** Inserting a batch free of clashes under fresh rowids keeps SKUs unique. */
  lemma InsertKeepsSkusUnique(variants: map<int, Variant>, productId: int, first: int, now: nat,
                              vs: seq<NewVariant>)
    requires SkusUnique(variants)
    requires forall k :: k in variants ==> k < first
    requires SkusFree(SkuSet(variants), vs)
    ensures SkusUnique(variants + InsertedRows(productId, first, now, vs))
  {
    var inserted := InsertedRows(productId, first, now, vs);
    InsertedRowsAt(productId, first, now, vs);
    var all := variants + inserted;
    forall a, b | a in all && b in all && a != b
      ensures all[a].sku != all[b].sku
    {
      if a in inserted && b in inserted {
        assert all[a].sku == vs[a - first].sku && all[b].sku == vs[b - first].sku;
      } else if a in inserted {
        assert all[b] == variants[b];
        assert variants[b].sku in SkuSet(variants);
        assert all[a].sku == vs[a - first].sku;
      } else if b in inserted {
        assert all[a] == variants[a];
        assert variants[a].sku in SkuSet(variants);
        assert all[b].sku == vs[b - first].sku;
      } else {
        assert all[a] == variants[a] && all[b] == variants[b];
      }
    }
  }

  /** The new product gets its batch, and no existing product loses a variant. */
  lemma InsertKeepsNeverEmpty(products: map<int, Product>, variants: map<int, Variant>,
                              productId: int, row: Product, first: int, now: nat, vs: seq<NewVariant>)
    requires NeverEmpty(products, variants)
    requires forall k :: k in variants ==> k < first
    requires vs != []
    ensures NeverEmpty(products[productId := row], variants + InsertedRows(productId, first, now, vs))
  {
    var inserted := InsertedRows(productId, first, now, vs);
    InsertedRowsAt(productId, first, now, vs);
    var all := variants + inserted;
    forall p | p in products[productId := row]
      ensures VariantCount(all, p) >= 1
    {
      if p == productId {
        assert all[first] == inserted[first];
        assert first in VariantIdsOf(all, p);
      } else {
        forall k | k in VariantIdsOf(variants, p)
          ensures k in VariantIdsOf(all, p)
        {
          assert k !in inserted;
          assert all[k] == variants[k];
        }
        SubsetCard(VariantIdsOf(variants, p), VariantIdsOf(all, p));
      }
    }
  }

  /** Each inserted row sits under its own rowid, below the next rowid,
      belongs to the new product, carries validated amounts and the stamp. */
  lemma InsertKeepsRows(products: map<int, Product>, variants: map<int, Variant>,
                        clock: nat, nextProductId: int, nextVariantId: int,
                        row: Product, vs: seq<NewVariant>)
    requires Consistent(products, variants, clock, nextProductId, nextVariantId)
    requires forall i :: 0 <= i < |vs| ==> vs[i].priceCents >= 0 && vs[i].inventoryCount >= 0
    ensures var all := variants + InsertedRows(nextProductId, nextVariantId, clock + 1, vs);
      && VariantsKeyed(all)
      && VariantsOwned(products[nextProductId := row], all)
      && AmountsValid(all)
      && (forall k :: k in all ==> k < nextVariantId + |vs|)
      && (forall k :: k in all ==> all[k].createdAt <= clock + 1 && all[k].updatedAt <= clock + 1)
  {
    var inserted := InsertedRows(nextProductId, nextVariantId, clock + 1, vs);
    InsertedRowsAt(nextProductId, nextVariantId, clock + 1, vs);
    var all := variants + inserted;
    forall k | k in all
      ensures && all[k].id == k
              && all[k].productId in products[nextProductId := row]
              && all[k].priceCents >= 0 && all[k].inventoryCount >= 0
              && k < nextVariantId + |vs|
              && all[k].createdAt <= clock + 1 && all[k].updatedAt <= clock + 1
    {
      if k in inserted {
        assert all[k] == NewVariantRow(k, nextProductId, vs[k - nextVariantId], clock + 1);
      } else {
        assert all[k] == variants[k];
      }
    }
  }

  /** A batch that passed validation and the store's SKU rule, inserted under
      fresh rowids, leaves the store consistent. */
  lemma CreateKeepsConsistent(products: map<int, Product>, variants: map<int, Variant>,
                              clock: nat, nextProductId: int, nextVariantId: int, np: NewProduct)
    requires Consistent(products, variants, clock, nextProductId, nextVariantId)
    requires np.variants != []
    requires forall i :: 0 <= i < |np.variants| ==>
      np.variants[i].priceCents >= 0 && np.variants[i].inventoryCount >= 0
    requires SkusFree(SkuSet(variants), np.variants)
    ensures var now := clock + 1;
      Consistent(products[nextProductId := NewProductRow(nextProductId, np, now)],
                 variants + InsertedRows(nextProductId, nextVariantId, now, np.variants),
                 now, nextProductId + 1, nextVariantId + |np.variants|)
  {
    var now := clock + 1;
    var pid := nextProductId;
    var first := nextVariantId;
    var vs := np.variants;
    var row := NewProductRow(pid, np, now);
    InsertKeepsRows(products, variants, clock, pid, first, row, vs);
    InsertKeepsSkusUnique(variants, pid, first, now, vs);
    InsertKeepsNeverEmpty(products, variants, pid, row, first, now, vs);
    var products' := products[pid := row];
    assert ProductsKeyed(products');
    assert forall k :: k in products' ==> k < pid + 1;
    assert forall k :: k in products' ==> products'[k].createdAt <= now && products'[k].updatedAt <= now;
  }

  /** After the inserts the new product owns exactly the inserted rowids:
      no earlier row can name a product id that did not exist. */
  lemma NewProductOwnsBatch(products: map<int, Product>, variants: map<int, Variant>,
                            nextProductId: int, nextVariantId: int, now: nat, vs: seq<NewVariant>)
    requires VariantsOwned(products, variants)
    requires forall k :: k in products ==> k < nextProductId
    requires forall k :: k in variants ==> k < nextVariantId
    ensures VariantIdsOf(variants + InsertedRows(nextProductId, nextVariantId, now, vs), nextProductId)
         == set k | k in Range(nextVariantId, |vs|)
  {
    var inserted := InsertedRows(nextProductId, nextVariantId, now, vs);
    InsertedRowsAt(nextProductId, nextVariantId, now, vs);
    var all := variants + inserted;
    var range := Range(nextVariantId, |vs|);
    forall k | k in variants
      ensures variants[k].productId != nextProductId
    {
      assert variants[k].productId in products;
    }
    forall k | k in VariantIdsOf(all, nextProductId)
      ensures k in range
    {
      assert k in inserted;
      assert range[k - nextVariantId] == k;
    }
    forall k | k in range
      ensures k in VariantIdsOf(all, nextProductId)
    {
      var j :| 0 <= j < |range| && range[j] == k;
      assert all[k] == inserted[k];
    }
  }

  /** The rows of one batch share a stamp, so they come back in rowid order. */
  lemma BatchInRowidOrder(products: map<int, Product>, variants: map<int, Variant>,
                          nextProductId: int, nextVariantId: int, now: nat, vs: seq<NewVariant>)
    requires VariantsOwned(products, variants)
    requires forall k :: k in products ==> k < nextProductId
    requires forall k :: k in variants ==> k < nextVariantId
    ensures OrderedVariantIds(variants + InsertedRows(nextProductId, nextVariantId, now, vs), nextProductId)
         == Range(nextVariantId, |vs|)
  {
    var all := variants + InsertedRows(nextProductId, nextVariantId, now, vs);
    assert VariantIdsOf(all, nextProductId) == set k | k in Range(nextVariantId, |vs|) by {
      NewProductOwnsBatch(products, variants, nextProductId, nextVariantId, now, vs);
    }
    assert forall k :: nextVariantId <= k < nextVariantId + |vs| ==> k in all && all[k].createdAt == now by {
      BatchRows(variants, nextProductId, nextVariantId, now, vs);
    }
    SameInstantInRowidOrder(all, nextProductId, nextVariantId, |vs|, now);
  }

  /** Rowid `first + i` holds the row built from the i-th input. */
  lemma BatchRows(variants: map<int, Variant>, productId: int, first: int, now: nat, vs: seq<NewVariant>)
    ensures forall i :: 0 <= i < |vs| ==>
      && first + i in variants + InsertedRows(productId, first, now, vs)
      && (variants + InsertedRows(productId, first, now, vs))[first + i] == NewVariantRow(first + i, productId, vs[i], now)
    ensures forall k :: first <= k < first + |vs| ==>
      && k in variants + InsertedRows(productId, first, now, vs)
      && (variants + InsertedRows(productId, first, now, vs))[k].createdAt == now
  {
    InsertedRowsAt(productId, first, now, vs);
  }

  /** The inserted rows carry their own rowids, as the rows already there do. */
  lemma InsertKeepsKeyed(variants: map<int, Variant>, productId: int, first: int, now: nat, vs: seq<NewVariant>)
    requires VariantsKeyed(variants)
    ensures VariantsKeyed(variants + InsertedRows(productId, first, now, vs))
  {
    var inserted := InsertedRows(productId, first, now, vs);
    var after := variants + inserted;
    InsertedRowsAt(productId, first, now, vs);
    forall k | k in after
      ensures after[k].id == k
    {
      if k !in inserted {
        assert after[k] == variants[k];
      }
    }
  }

  /** The variants the create returns are the batch, in input order: the
      product's own rows after the transaction are exactly the inserted ones,
      all stamped at the same instant, so creation order is rowid order. */
  lemma CreatedVariantsInInputOrder(products: map<int, Product>, variants: map<int, Variant>,
                                    clock: nat, nextProductId: int, nextVariantId: int,
                                    vs: seq<NewVariant>)
    requires VariantsKeyed(variants) && VariantsOwned(products, variants)
    requires forall k :: k in products ==> k < nextProductId
    requires forall k :: k in variants ==> k < nextVariantId
    ensures var after := variants + InsertedRows(nextProductId, nextVariantId, clock + 1, vs);
      VariantsKeyed(after) &&
      var listed := VariantsOf(after, nextProductId);
      && |listed| == |vs|
      && forall i :: 0 <= i < |vs| ==>
           listed[i] == NewVariantRow(nextVariantId + i, nextProductId, vs[i], clock + 1)
  {
    var now := clock + 1;
    var after := variants + InsertedRows(nextProductId, nextVariantId, now, vs);
    InsertKeepsKeyed(variants, nextProductId, nextVariantId, now, vs);
    BatchInRowidOrder(products, variants, nextProductId, nextVariantId, now, vs);
    BatchRows(variants, nextProductId, nextVariantId, now, vs);
    assert VariantsOf(after, nextProductId) == RowsAt(after, OrderedVariantIds(after, nextProductId));
  }

  /** A product detail that shows the product just created under `pid` at
      `now`: its row as inserted and one variant per input, in input order,
      under consecutive rowids from `first`. */
  predicate ShowsCreated(d: ProductDetail, np: NewProduct, pid: int, first: int, now: nat)
  {
    && d.view.product == NewProductRow(pid, np, now)
    && |d.variants| == |np.variants|
    && forall i :: 0 <= i < |np.variants| ==>
         && d.variants[i].id == first + i
         && d.variants[i].productId == pid
         && d.variants[i].sku == np.variants[i].sku
         && d.variants[i].name == np.variants[i].name
         && d.variants[i].priceCents == np.variants[i].priceCents
         && d.variants[i].inventoryCount == np.variants[i].inventoryCount
  }

  /** The detail a successful create answers with shows the created product. */
  lemma CreatedDetail(products: map<int, Product>, variants: map<int, Variant>,
                      products': map<int, Product>, variants': map<int, Variant>, categories: map<int, string>,
                      clock: nat, nextProductId: int, nextVariantId: int, np: NewProduct)
    requires Consistent(products, variants, clock, nextProductId, nextVariantId)
    requires products' == products[nextProductId := NewProductRow(nextProductId, np, clock + 1)]
    requires variants' == variants + InsertedRows(nextProductId, nextVariantId, clock + 1, np.variants)
    ensures VariantsKeyed(variants')
    ensures GetProduct(products', variants', categories, nextProductId).Ok?
    ensures ShowsCreated(GetProduct(products', variants', categories, nextProductId).value,
                         np, nextProductId, nextVariantId, clock + 1)
  {
    CreatedVariantsInInputOrder(products, variants, clock, nextProductId, nextVariantId, np.variants);
    assert GetProduct(products', variants', categories, nextProductId).value.variants
        == VariantsOf(variants', nextProductId);
  }

  /** The prices of a batch of inputs, in input order. */
  function InputPrices(vs: seq<NewVariant>): (r: seq<int>)
    ensures |r| == |vs| && forall i :: 0 <= i < |vs| ==> r[i] == vs[i].priceCents
  {
    seq(|vs|, i requires 0 <= i < |vs| => vs[i].priceCents)
  }

  /** The stock counts of a batch of inputs, in input order. */
  function InputStock(vs: seq<NewVariant>): (r: seq<int>)
    ensures |r| == |vs| && forall i :: 0 <= i < |vs| ==> r[i] == vs[i].inventoryCount
  {
    seq(|vs|, i requires 0 <= i < |vs| => vs[i].inventoryCount)
  }

  /** In the list, a product just created counts its inputs and totals
      their stock. */
  lemma CreatedTotalInventory(products: map<int, Product>, variants: map<int, Variant>,
                              products': map<int, Product>, variants': map<int, Variant>,
                              categories: map<int, string>,
                              clock: nat, nextProductId: int, nextVariantId: int, np: NewProduct)
    requires VariantsKeyed(variants) && VariantsOwned(products, variants)
    requires forall k :: k in products ==> k < nextProductId
    requires forall k :: k in variants ==> k < nextVariantId
    requires products' == products[nextProductId := NewProductRow(nextProductId, np, clock + 1)]
    requires variants' == variants + InsertedRows(nextProductId, nextVariantId, clock + 1, np.variants)
    ensures VariantsKeyed(variants') && nextProductId in products'
    ensures Summarize(products', variants', categories, nextProductId).variantCount == |np.variants|
    ensures Summarize(products', variants', categories, nextProductId).totalInventory == Sum(InputStock(np.variants))
  {
    CreatedVariantsInInputOrder(products, variants, clock, nextProductId, nextVariantId, np.variants);
    assert Inventories(VariantsOf(variants', nextProductId)) == InputStock(np.variants);
  }

  /** In the list, a product just created has the least and the greatest of
      its inputs' prices as its min and max price. */
  lemma CreatedPriceRange(products: map<int, Product>, variants: map<int, Variant>,
                          products': map<int, Product>, variants': map<int, Variant>,
                          categories: map<int, string>,
                          clock: nat, nextProductId: int, nextVariantId: int, np: NewProduct)
    requires VariantsKeyed(variants) && VariantsOwned(products, variants)
    requires forall k :: k in products ==> k < nextProductId
    requires forall k :: k in variants ==> k < nextVariantId
    requires products' == products[nextProductId := NewProductRow(nextProductId, np, clock + 1)]
    requires variants' == variants + InsertedRows(nextProductId, nextVariantId, clock + 1, np.variants)
    ensures VariantsKeyed(variants') && nextProductId in products'
    ensures Summarize(products', variants', categories, nextProductId).minPriceCents == Min(InputPrices(np.variants))
    ensures Summarize(products', variants', categories, nextProductId).maxPriceCents == Max(InputPrices(np.variants))
  {
    CreatedVariantsInInputOrder(products, variants, clock, nextProductId, nextVariantId, np.variants);
    assert Prices(VariantsOf(variants', nextProductId)) == InputPrices(np.variants);
  }

  // ---------------------------------------------------------------------------
  // PUT /products/:id and DELETE /products/:id

  /** `SET name = COALESCE(?, name), ..., updated_at = now`: each of the four
      columns takes the supplied value unless it was omitted or null. */
  function PatchProduct(p: Product, patch: ProductPatch, now: nat): (r: Product)
    ensures patch.name.Given? ==> r.name == patch.name.value
    ensures !patch.name.Given? ==> r.name == p.name
    ensures patch.description.Given? ==> r.description == Some(patch.description.value)
    ensures !patch.description.Given? ==> r.description == p.description
    ensures patch.categoryId.Given? ==> r.categoryId == Some(patch.categoryId.value)
    ensures !patch.categoryId.Given? ==> r.categoryId == p.categoryId
    ensures patch.status.Given? ==> r.status == patch.status.value
    ensures !patch.status.Given? ==> r.status == p.status
    ensures r.id == p.id && r.deletedAt == p.deletedAt && r.createdAt == p.createdAt
    ensures r.updatedAt == now
  {
    Product(
      p.id,
      if patch.name.Given? then patch.name.value else p.name,
      if patch.description.Given? then Some(patch.description.value) else p.description,
      if patch.categoryId.Given? then Some(patch.categoryId.value) else p.categoryId,
      if patch.status.Given? then patch.status.value else p.status,
      p.deletedAt, p.createdAt, now)
  }

  /** `SET deleted_at = now, updated_at = now`, whatever `deleted_at` held. */
  function SoftDeleted(p: Product, now: nat): (r: Product)
    ensures r.deletedAt == Some(now) && r.updatedAt == now
    ensures r.id == p.id && r.name == p.name && r.description == p.description
    ensures r.categoryId == p.categoryId && r.status == p.status && r.createdAt == p.createdAt
  {
    p.(deletedAt := Some(now), updatedAt := now)
  }

  /** Rewriting a product row's own columns at a later instant keeps the store
      consistent: the variants table is untouched. */
  lemma ProductWriteKeepsConsistent(products: map<int, Product>, variants: map<int, Variant>,
                                    clock: nat, nextProductId: int, nextVariantId: int,
                                    id: int, row: Product)
    requires Consistent(products, variants, clock, nextProductId, nextVariantId)
    requires id in products && row.id == id
    requires row.createdAt <= clock + 1 && row.updatedAt <= clock + 1
    ensures Consistent(products[id := row], variants, clock + 1, nextProductId, nextVariantId)
  {
    var products' := products[id := row];
    assert NeverEmpty(products', variants) by {
      forall p | p in products'
        ensures VariantCount(variants, p) >= 1
      {
        assert p in products;
      }
    }
  }

  // ---------------------------------------------------------------------------
  // PUT /variants/:id

  /** One `column = ?` the handler pushes onto `updates`; a null SKU or name
      is pushed as given and refused by the table when written. */
  datatype Assignment =
    | SetName(name: Option<string>)
    | SetSku(sku: Option<string>)
    | SetPrice(cents: int)
    | SetInventory(count: int)

  /** Another variant row already holds `sku`
      (`SELECT * FROM variants WHERE sku = ? AND id != ?`). */
  predicate SkuHeldElsewhere(variants: map<int, Variant>, id: int, sku: string)
  {
    exists k :: k in variants && k != id && variants[k].sku == sku
  }

  /** The constraint error the `UPDATE` raises, if any: NOT NULL on the SKU,
      then on the name, then `UNIQUE(sku)`. */
  function WriteFailure(variants: map<int, Variant>, id: int, updates: seq<Assignment>): (r: Option<string>)
    ensures r == Some(NotNullSku) <==> SetSku(None) in updates
    ensures r.None? <==>
      && SetSku(None) !in updates
      && SetName(None) !in updates
      && forall a :: a in updates && a.SetSku? && a.sku.Some? ==> !SkuHeldElsewhere(variants, id, a.sku.value)
  {
    if SetSku(None) in updates then Some(NotNullSku)
    else if SetName(None) in updates then Some(NotNullName)
    else if exists a :: a in updates && a.SetSku? && a.sku.Some? && SkuHeldElsewhere(variants, id, a.sku.value) then
      Some(UniqueSku)
    else None
  }

  /** One assignment of a write the table accepts. */
  function ApplyOne(v: Variant, a: Assignment): (r: Variant)
    ensures r.id == v.id && r.productId == v.productId
    ensures r.createdAt == v.createdAt && r.updatedAt == v.updatedAt
    ensures r.name == (if a.SetName? && a.name.Some? then a.name.value else v.name)
    ensures r.sku == (if a.SetSku? && a.sku.Some? then a.sku.value else v.sku)
    ensures r.priceCents == (if a.SetPrice? then a.cents else v.priceCents)
    ensures r.inventoryCount == (if a.SetInventory? then a.count else v.inventoryCount)
  {
    match a
    case SetName(name) => if name.Some? then v.(name := name.value) else v
    case SetSku(sku) => if sku.Some? then v.(sku := sku.value) else v
    case SetPrice(cents) => v.(priceCents := cents)
    case SetInventory(count) => v.(inventoryCount := count)
  }

  /** `UPDATE variants SET <updates> WHERE id = ?` on one row whose write the
      table accepts, the assignments taken in the order they were pushed. It
      keeps the key, the owner and the stamps; each of SKU, price and stock
      either stays or takes a value one of the assignments carries. */
  function Apply(v: Variant, updates: seq<Assignment>): (r: Variant)
    ensures r.id == v.id && r.productId == v.productId
    ensures r.createdAt == v.createdAt && r.updatedAt == v.updatedAt
    ensures r.sku == v.sku || SetSku(Some(r.sku)) in updates
    ensures r.priceCents == v.priceCents || SetPrice(r.priceCents) in updates
    ensures r.inventoryCount == v.inventoryCount || SetInventory(r.inventoryCount) in updates
    decreases |updates|
  {
    if updates == [] then v
    else
      var init := updates[..|updates| - 1];
      var a := updates[|updates| - 1];
      assert a in updates;
      assert forall b :: b in init ==> b in updates;
      ApplyOne(Apply(v, init), a)
  }

  /** Running two lists of assignments is running their concatenation. */
  lemma {:induction false} ApplyConcat(v: Variant, first: seq<Assignment>, second: seq<Assignment>)
    ensures Apply(v, first + second) == Apply(Apply(v, first), second)
    decreases |second|
  {
    if second == [] {
      assert first + second == first;
    } else {
      var last := |second| - 1;
      ApplyConcat(v, first, second[..last]);
      assert (first + second)[..|first + second| - 1] == first + second[..last];
    }
  }

  /** The assignments PUT /variants/:id pushes for a patch that passed the
      checks: one per supplied field, in the order name, SKU, price, stock. */
  function Assignments(patch: VariantPatch): (r: seq<Assignment>)
    requires patch.priceCents == Undefined || patch.priceCents.Num?
    requires patch.inventoryCount == Undefined || patch.inventoryCount.Num?
    ensures |r| > 0 <==> PatchesSomething(patch)
    ensures SetSku(None) in r <==> patch.sku.ExplicitNull?
    ensures SetName(None) in r <==> patch.name.ExplicitNull?
    ensures forall a :: a in r && a.SetSku? && a.sku.Some? ==> patch.sku == Given(a.sku.value)
    ensures forall a :: a in r && a.SetPrice? ==> patch.priceCents == Num(a.cents)
    ensures forall a :: a in r && a.SetInventory? ==> patch.inventoryCount == Num(a.count)
  {
    NameAssignment(patch) + SkuAssignment(patch) + PriceAssignment(patch) + InventoryAssignment(patch)
  }

  /** Each supplied field, and only a supplied field, gets an assignment of
      its column, carrying the value the body gave. */
  lemma AssignmentsCoverSupplied(patch: VariantPatch)
    requires patch.priceCents == Undefined || patch.priceCents.Num?
    requires patch.inventoryCount == Undefined || patch.inventoryCount.Num?
    ensures Supplied(patch.name) <==> exists a :: a in Assignments(patch) && a.SetName?
    ensures Supplied(patch.sku) <==> exists a :: a in Assignments(patch) && a.SetSku?
    ensures patch.priceCents != Undefined <==> exists a :: a in Assignments(patch) && a.SetPrice?
    ensures patch.inventoryCount != Undefined <==> exists a :: a in Assignments(patch) && a.SetInventory?
    ensures forall a :: a in Assignments(patch) && a.SetName? && a.name.Some? ==> patch.name == Given(a.name.value)
  {
    FourParts(NameAssignment(patch), SkuAssignment(patch), PriceAssignment(patch), InventoryAssignment(patch));
  }

  /** Membership in four lists run one after the other. */
  lemma FourParts<T>(w: seq<T>, x: seq<T>, y: seq<T>, z: seq<T>)
    ensures forall a :: a in w + x + y + z <==> a in w || a in x || a in y || a in z
    ensures w != [] ==> w[0] in w + x + y + z
    ensures x != [] ==> x[0] in w + x + y + z
    ensures y != [] ==> y[0] in w + x + y + z
    ensures z != [] ==> z[0] in w + x + y + z
  {
  }

  function NameAssignment(patch: VariantPatch): (r: seq<Assignment>)
    ensures |r| <= 1 && (r != [] <==> Supplied(patch.name))
    ensures forall a :: a in r ==> a.SetName? && (a.name.Some? <==> patch.name.Given?)
    ensures forall a :: a in r && a.name.Some? ==> patch.name == Given(a.name.value)
  {
    if patch.name == Omitted then [] else [SetName(if patch.name.Given? then Some(patch.name.value) else None)]
  }

  function SkuAssignment(patch: VariantPatch): (r: seq<Assignment>)
    ensures |r| <= 1 && (r != [] <==> Supplied(patch.sku))
    ensures forall a :: a in r ==> a.SetSku? && (a.sku.Some? <==> patch.sku.Given?)
    ensures forall a :: a in r && a.sku.Some? ==> patch.sku == Given(a.sku.value)
  {
    if patch.sku == Omitted then [] else [SetSku(if patch.sku.Given? then Some(patch.sku.value) else None)]
  }

  function PriceAssignment(patch: VariantPatch): (r: seq<Assignment>)
    requires patch.priceCents == Undefined || patch.priceCents.Num?
    ensures |r| <= 1 && (r != [] <==> patch.priceCents != Undefined)
    ensures forall a :: a in r ==> a.SetPrice? && patch.priceCents == Num(a.cents)
  {
    if patch.priceCents == Undefined then [] else [SetPrice(patch.priceCents.n)]
  }

  function InventoryAssignment(patch: VariantPatch): (r: seq<Assignment>)
    requires patch.inventoryCount == Undefined || patch.inventoryCount.Num?
    ensures |r| <= 1 && (r != [] <==> patch.inventoryCount != Undefined)
    ensures forall a :: a in r ==> a.SetInventory? && patch.inventoryCount == Num(a.count)
  {
    if patch.inventoryCount == Undefined then [] else [SetInventory(patch.inventoryCount.n)]
  }

  lemma NameStep(v: Variant, patch: VariantPatch)
    requires !patch.name.ExplicitNull?
    ensures Apply(v, NameAssignment(patch)) == v.(name := if patch.name.Given? then patch.name.value else v.name)
  {
    assert NameAssignment(patch) != [] ==> NameAssignment(patch)[..0] == [];
  }

  lemma SkuStep(v: Variant, patch: VariantPatch)
    requires !patch.sku.ExplicitNull?
    ensures Apply(v, SkuAssignment(patch)) == v.(sku := if patch.sku.Given? then patch.sku.value else v.sku)
  {
    assert SkuAssignment(patch) != [] ==> SkuAssignment(patch)[..0] == [];
  }

  lemma PriceStep(v: Variant, patch: VariantPatch)
    requires patch.priceCents == Undefined || patch.priceCents.Num?
    ensures Apply(v, PriceAssignment(patch)) ==
      v.(priceCents := if patch.priceCents.Num? then patch.priceCents.n else v.priceCents)
  {
    assert PriceAssignment(patch) != [] ==> PriceAssignment(patch)[..0] == [];
  }

  lemma InventoryStep(v: Variant, patch: VariantPatch)
    requires patch.inventoryCount == Undefined || patch.inventoryCount.Num?
    ensures Apply(v, InventoryAssignment(patch)) ==
      v.(inventoryCount := if patch.inventoryCount.Num? then patch.inventoryCount.n else v.inventoryCount)
  {
    assert InventoryAssignment(patch) != [] ==> InventoryAssignment(patch)[..0] == [];
  }

  /** The merge-patch a successful variant update performs: each supplied
      field takes its new value, the others keep theirs, and `updated_at`
      moves only when some field was supplied. */
  function PatchVariant(v: Variant, patch: VariantPatch, now: nat): (r: Variant)
    requires !patch.name.ExplicitNull? && !patch.sku.ExplicitNull?
    requires patch.priceCents == Undefined || patch.priceCents.Num?
    requires patch.inventoryCount == Undefined || patch.inventoryCount.Num?
    ensures r.name == (if patch.name.Given? then patch.name.value else v.name)
    ensures r.sku == (if patch.sku.Given? then patch.sku.value else v.sku)
    ensures r.priceCents == (if patch.priceCents.Num? then patch.priceCents.n else v.priceCents)
    ensures r.inventoryCount == (if patch.inventoryCount.Num? then patch.inventoryCount.n else v.inventoryCount)
    ensures r.id == v.id && r.productId == v.productId && r.createdAt == v.createdAt
    ensures r.updatedAt == (if PatchesSomething(patch) then now else v.updatedAt)
  {
    Variant(
      v.id, v.productId,
      if patch.sku.Given? then patch.sku.value else v.sku,
      if patch.name.Given? then patch.name.value else v.name,
      if patch.priceCents.Num? then patch.priceCents.n else v.priceCents,
      if patch.inventoryCount.Num? then patch.inventoryCount.n else v.inventoryCount,
      v.createdAt,
      if PatchesSomething(patch) then now else v.updatedAt)
  }

  /** Lines 75-93 of the handler: push one assignment per supplied field. */
  method PushAssignments(patch: VariantPatch) returns (updates: seq<Assignment>)
    requires patch.priceCents == Undefined || patch.priceCents.Num?
    requires patch.inventoryCount == Undefined || patch.inventoryCount.Num?
    ensures updates == Assignments(patch)
  {
    updates := [];
    if patch.name != Omitted {
      updates := updates + [SetName(if patch.name.Given? then Some(patch.name.value) else None)];
    }
    if patch.sku != Omitted {
      updates := updates + [SetSku(if patch.sku.Given? then Some(patch.sku.value) else None)];
    }
    if patch.priceCents != Undefined {
      updates := updates + [SetPrice(patch.priceCents.n)];
    }
    if patch.inventoryCount != Undefined {
      updates := updates + [SetInventory(patch.inventoryCount.n)];
    }
  }

  /** The pushed assignments, written with a fresh `updated_at`, perform
      exactly the merge-patch. */
  lemma AssignmentsPerformPatch(v: Variant, patch: VariantPatch, now: nat)
    requires !patch.name.ExplicitNull? && !patch.sku.ExplicitNull?
    requires patch.priceCents == Undefined || patch.priceCents.Num?
    requires patch.inventoryCount == Undefined || patch.inventoryCount.Num?
    ensures PatchesSomething(patch) ==>
      Apply(v, Assignments(patch)).(updatedAt := now) == PatchVariant(v, patch, now)
    ensures !PatchesSomething(patch) ==> PatchVariant(v, patch, now) == v
  {
    var n, k, p, i := NameAssignment(patch), SkuAssignment(patch), PriceAssignment(patch), InventoryAssignment(patch);
    ApplyConcat(v, n + k + p, i);
    ApplyConcat(v, n + k, p);
    ApplyConcat(v, n, k);
    var v1 := Apply(v, n);
    var v2 := Apply(v1, k);
    var v3 := Apply(v2, p);
    NameStep(v, patch);
    SkuStep(v1, patch);
    PriceStep(v2, patch);
    InventoryStep(v3, patch);
  }

  /** A SKU the uniqueness pre-check lets through, written after the numeric
      checks passed, fails at the table only when it is the empty string: the
      `sku &&` guard skips the pre-check for "" alone, and an unchanged SKU is
      held by no other row. */
  lemma OnlyEmptySkuReachesUnique(variants: map<int, Variant>, id: int, sku: string)
    requires SkusUnique(variants) && id in variants
    requires !(ChangesSku(Given(sku), variants[id].sku) && SkuHeldElsewhere(variants, id, sku))
    requires SkuHeldElsewhere(variants, id, sku)
    ensures sku == ""
  {
    var k :| k in variants && k != id && variants[k].sku == sku;
    assert variants[k].sku != variants[id].sku;
  }

  /** Writing a merge-patched variant row, with a SKU no other row holds and
      non-negative amounts, keeps the store consistent. */
  lemma VariantWriteKeepsConsistent(products: map<int, Product>, variants: map<int, Variant>,
                                    clock: nat, nextProductId: int, nextVariantId: int,
                                    id: int, row: Variant)
    requires Consistent(products, variants, clock, nextProductId, nextVariantId)
    requires id in variants && row.id == id && row.productId == variants[id].productId
    requires !SkuHeldElsewhere(variants, id, row.sku)
    requires row.priceCents >= 0 && row.inventoryCount >= 0
    requires row.createdAt <= clock + 1 && row.updatedAt <= clock + 1
    ensures Consistent(products, variants[id := row], clock + 1, nextProductId, nextVariantId)
  {
    var variants' := variants[id := row];
    assert SkusUnique(variants') by {
      forall a, b | a in variants' && b in variants' && a != b
        ensures variants'[a].sku != variants'[b].sku
      {
        if a == id {
          assert variants[b].sku == variants'[b].sku;
        } else if b == id {
          assert variants[a].sku == variants'[a].sku;
        }
      }
    }
    assert NeverEmpty(products, variants') by {
      forall p | p in products
        ensures VariantCount(variants', p) >= 1
      {
        assert VariantIdsOf(variants', p) == VariantIdsOf(variants, p);
      }
    }
  }

  // ---------------------------------------------------------------------------
  // DELETE /variants/:id

  /** Removing a variant whose product has other variants takes one from that
      product's count, leaves it at least one, and leaves every other
      product's count as it was. */
  lemma DeleteVariantCounts(variants: map<int, Variant>, id: int)
    requires id in variants && VariantCount(variants, variants[id].productId) > 1
    ensures VariantCount(variants - {id}, variants[id].productId) == VariantCount(variants, variants[id].productId) - 1
    ensures VariantCount(variants - {id}, variants[id].productId) >= 1
    ensures forall p :: p != variants[id].productId ==> VariantCount(variants - {id}, p) == VariantCount(variants, p)
  {
    var pid := variants[id].productId;
    assert VariantIdsOf(variants - {id}, pid) == VariantIdsOf(variants, pid) - {id};
    forall p | p != pid
      ensures VariantCount(variants - {id}, p) == VariantCount(variants, p)
    {
      assert VariantIdsOf(variants - {id}, p) == VariantIdsOf(variants, p);
    }
  }

  /** A guarded variant delete keeps the store consistent; in particular no
      product is left without variants. */
  lemma DeleteVariantKeepsConsistent(products: map<int, Product>, variants: map<int, Variant>,
                                     clock: nat, nextProductId: int, nextVariantId: int, id: int)
    requires Consistent(products, variants, clock, nextProductId, nextVariantId)
    requires id in variants && VariantCount(variants, variants[id].productId) > 1
    ensures Consistent(products, variants - {id}, clock, nextProductId, nextVariantId)
  {
    DeleteVariantCounts(variants, id);
  }

  // ---------------------------------------------------------------------------
  // The store

  class CatalogueStore {
    var products: map<int, Product>
    var variants: map<int, Variant>
    const categories: map<int, string>
    /** The logical clock: the instant of the latest write. */
    var clock: nat
    /** The rowid the next insert into each table receives. */
    var nextProductId: int
    var nextVariantId: int

    ghost predicate Valid()
      reads this
    {
      Consistent(products, variants, clock, nextProductId, nextVariantId)
    }

    /** No table, counter or the clock differs from the pre-state: what a
        refused request or a rolled-back transaction leaves. */
    twostate predicate Untouched()
      reads this
    {
      && products == old(products) && variants == old(variants) && clock == old(clock)
      && nextProductId == old(nextProductId) && nextVariantId == old(nextVariantId)
    }

    /** An empty catalogue over a fixed set of categories. */
    constructor(categories: map<int, string>)
      ensures Valid()
      ensures products == map[] && variants == map[] && this.categories == categories
      ensures clock == 0 && nextProductId == 1 && nextVariantId == 1
    {
      products := map[];
      variants := map[];
      this.categories := categories;
      clock := 0;
      nextProductId := 1;
      nextVariantId := 1;
    }

    /** The transaction of POST /products: insert the product row, then one
        variant row per input in order; the first insert whose SKU the table
        already holds (from before or from this batch) fails and rolls the
        whole transaction back. */
    method CreateTransaction(np: NewProduct) returns (committed: bool)
      requires Valid()
      requires np.variants != []
      requires forall i :: 0 <= i < |np.variants| ==>
        np.variants[i].priceCents >= 0 && np.variants[i].inventoryCount >= 0
      modifies this
      ensures Valid()
      ensures committed <==> SkusFree(SkuSet(old(variants)), np.variants)
      ensures !committed ==> Untouched()
      ensures committed ==>
        && clock == old(clock) + 1
        && nextProductId == old(nextProductId) + 1
        && nextVariantId == old(nextVariantId) + |np.variants|
        && products == old(products)[old(nextProductId) := NewProductRow(old(nextProductId), np, clock)]
        && variants == old(variants) + InsertedRows(old(nextProductId), old(nextVariantId), clock, np.variants)
    {
      var vs := np.variants;
      // What a rollback restores.
      var savedProducts, savedVariants, savedClock := products, variants, clock;
      var savedNextProductId, savedNextVariantId := nextProductId, nextVariantId;
      assert Consistent(savedProducts, savedVariants, savedClock, savedNextProductId, savedNextVariantId);
      var pid := nextProductId;
      var now := clock + 1;
      products := products[pid := NewProductRow(pid, np, now)];
      nextProductId := pid + 1;
      clock := now;
      var i := 0;
      while i < |vs|
        invariant 0 <= i <= |vs|
        invariant products == savedProducts[pid := NewProductRow(pid, np, now)]
        invariant clock == now && nextProductId == pid + 1
        invariant nextVariantId == savedNextVariantId + i
        invariant variants == savedVariants + InsertedRows(pid, savedNextVariantId, now, vs[..i])
        invariant SkusFree(SkuSet(savedVariants), vs[..i])
      {
        var v := vs[i];
        if v.sku in SkuSet(variants) {
          // UNIQUE constraint failed: variants.sku
          ClashBreaksFree(savedVariants, pid, savedNextVariantId, now, vs, i);
          products, variants, clock := savedProducts, savedVariants, savedClock;
          nextProductId, nextVariantId := savedNextProductId, savedNextVariantId;
          return false;
        }
        FreeExtends(savedVariants, pid, savedNextVariantId, now, vs, i);
        InsertStep(savedVariants, pid, savedNextVariantId, now, vs, i);
        variants := variants[nextVariantId := NewVariantRow(nextVariantId, pid, v, now)];
        nextVariantId := nextVariantId + 1;
        i := i + 1;
      }
      assert vs[..i] == vs;
      assert variants == savedVariants + InsertedRows(pid, savedNextVariantId, now, vs);
      CreateKeepsConsistent(savedProducts, savedVariants, savedClock, pid, savedNextVariantId, np);
      committed := true;
    }

    /** POST /products: validation first (400), then the transaction, which
        either commits (201 with the new product as GET /products/:id shows
        it) or is rolled back as a whole (409). */
    method CreateProduct(req: CreateRequest) returns (r: Response<ProductDetail>)
      requires Valid()
      modifies this
      ensures Valid()
      ensures CheckCreate(req).Failure? ==>
        r == BadRequest(CheckCreate(req).error) && Untouched()
      ensures CheckCreate(req).Success? && !SkusFree(SkuSet(old(variants)), CheckCreate(req).value.variants) ==>
        r == Conflict(SkusInUse) && Untouched()
      ensures CheckCreate(req).Success? && SkusFree(SkuSet(old(variants)), CheckCreate(req).value.variants) ==>
        var np := CheckCreate(req).value;
        && clock == old(clock) + 1
        && nextProductId == old(nextProductId) + 1
        && nextVariantId == old(nextVariantId) + |np.variants|
        && products == old(products)[old(nextProductId) := NewProductRow(old(nextProductId), np, clock)]
        && variants == old(variants) + InsertedRows(old(nextProductId), old(nextVariantId), clock, np.variants)
        && r == Created(GetProduct(products, variants, categories, old(nextProductId)).value)
        && ShowsCreated(r.value, np, old(nextProductId), old(nextVariantId), clock)
    {
      var checked := ValidateCreate(req);
      if checked.Failure? {
        return BadRequest(checked.error);
      }
      var np := checked.value;
      var pid := nextProductId;
      ghost var before, first, start := variants, nextVariantId, clock;
      var committed := CreateTransaction(np);
      if !committed {
        return Conflict(SkusInUse);
      }
      CreatedDetail(old(products), before, products, variants, categories, start, pid, first, np);
      r := Created(GetProduct(products, variants, categories, pid).value);
    }

    /** PUT /products/:id: 404 for an unknown id; otherwise the COALESCE
        update (soft-deleted rows included, `status` not re-validated) and
        the updated row with its category name. */
    method UpdateProduct(id: int, patch: ProductPatch) returns (r: Response<ProductView>)
      requires Valid()
      modifies this
      ensures Valid()
      ensures id !in old(products) ==> r == NotFound(ProductNotFound) && unchanged(this)
      ensures id in old(products) ==>
        && clock == old(clock) + 1
        && products == old(products)[id := PatchProduct(old(products)[id], patch, clock)]
        && variants == old(variants)
        && nextProductId == old(nextProductId) && nextVariantId == old(nextVariantId)
        && r == Ok(View(products, categories, id))
    {
      if id !in products {
        return NotFound(ProductNotFound);
      }
      var now := clock + 1;
      ProductWriteKeepsConsistent(products, variants, clock, nextProductId, nextVariantId,
                                  id, PatchProduct(products[id], patch, now));
      products := products[id := PatchProduct(products[id], patch, now)];
      clock := now;
      r := Ok(View(products, categories, id));
    }

    /** DELETE /products/:id: 404 for an unknown id; otherwise stamps
        `deleted_at` and `updated_at` and answers success, also when the row
        was already deleted. The row and its variants stay. */
    method SoftDeleteProduct(id: int) returns (r: Response<bool>)
      requires Valid()
      modifies this
      ensures Valid()
      ensures id !in old(products) ==> r == NotFound(ProductNotFound) && unchanged(this)
      ensures id in old(products) ==>
        && r == Ok(true)
        && clock == old(clock) + 1
        && products == old(products)[id := SoftDeleted(old(products)[id], clock)]
        && variants == old(variants)
        && nextProductId == old(nextProductId) && nextVariantId == old(nextVariantId)
    {
      if id !in products {
        return NotFound(ProductNotFound);
      }
      var now := clock + 1;
      ProductWriteKeepsConsistent(products, variants, clock, nextProductId, nextVariantId,
                                  id, SoftDeleted(products[id], now));
      products := products[id := SoftDeleted(products[id], now)];
      clock := now;
      r := Ok(true);
    }

    /** `UPDATE variants SET <updates>, updated_at = now WHERE id = ?`: the
        table refuses a null SKU or name and a SKU another row holds, and
        then nothing is written. */
    method WriteVariant(id: int, updates: seq<Assignment>) returns (failure: Option<string>)
      requires Valid() && id in variants
      requires forall a :: a in updates && a.SetPrice? ==> a.cents >= 0
      requires forall a :: a in updates && a.SetInventory? ==> a.count >= 0
      modifies this
      ensures Valid()
      ensures failure == WriteFailure(old(variants), id, updates)
      ensures failure.Some? ==> Untouched()
      ensures failure.None? ==>
        && clock == old(clock) + 1
        && variants == old(variants)[id := Apply(old(variants)[id], updates).(updatedAt := clock)]
        && products == old(products)
        && nextProductId == old(nextProductId) && nextVariantId == old(nextVariantId)
    {
      failure := WriteFailure(variants, id, updates);
      if failure.Some? {
        return;
      }
      var existing := variants[id];
      var now := clock + 1;
      var row := Apply(existing, updates).(updatedAt := now);
      if row.sku != existing.sku {
        assert SetSku(Some(row.sku)) in updates;
      }
      VariantWriteKeepsConsistent(products, variants, clock, nextProductId, nextVariantId, id, row);
      variants := variants[id := row];
      clock := now;
    }

    /** PUT /variants/:id: 404, then the SKU pre-check (400, only for a
        non-empty SKU that differs from the current one), then the two numeric
        checks (400); then the supplied columns are written in one `UPDATE`,
        which the table refuses (500 with its message) for a null SKU or name
        or a SKU another row holds. Every refusal leaves the store as it was. */
    method UpdateVariant(id: int, patch: VariantPatch) returns (r: Response<Variant>)
      requires Valid()
      modifies this
      ensures Valid()
      ensures id !in old(variants) ==> r == NotFound(VariantNotFound) && Untouched()
      ensures r == NotFound(VariantNotFound) <==> id !in old(variants)
      ensures id in old(variants) && ChangesSku(patch.sku, old(variants)[id].sku) &&
              SkuHeldElsewhere(old(variants), id, patch.sku.value) ==>
        r == BadRequest(SkuExists) && Untouched()
      ensures r == BadRequest(SkuExists) <==>
        id in old(variants) && ChangesSku(patch.sku, old(variants)[id].sku) &&
        SkuHeldElsewhere(old(variants), id, patch.sku.value)
      ensures id in old(variants) && patch.sku == Given(old(variants)[id].sku) ==> r != BadRequest(SkuExists)
      ensures r == BadRequest(PriceInvalid) <==>
        id in old(variants) && !(ChangesSku(patch.sku, old(variants)[id].sku) &&
        SkuHeldElsewhere(old(variants), id, patch.sku.value)) && RejectsAmount(patch.priceCents)
      ensures r == BadRequest(InventoryInvalid) <==>
        id in old(variants) && !(ChangesSku(patch.sku, old(variants)[id].sku) &&
        SkuHeldElsewhere(old(variants), id, patch.sku.value)) &&
        !RejectsAmount(patch.priceCents) && RejectsAmount(patch.inventoryCount)
      ensures !r.Ok? ==> Untouched()
      ensures r.Ok? <==>
        && id in old(variants)
        && !(ChangesSku(patch.sku, old(variants)[id].sku) && SkuHeldElsewhere(old(variants), id, patch.sku.value))
        && !RejectsAmount(patch.priceCents) && !RejectsAmount(patch.inventoryCount)
        && WriteFailure(old(variants), id, Assignments(patch)).None?
      ensures (&& id in old(variants)
               && !(ChangesSku(patch.sku, old(variants)[id].sku) && SkuHeldElsewhere(old(variants), id, patch.sku.value))
               && !RejectsAmount(patch.priceCents) && !RejectsAmount(patch.inventoryCount)
               && WriteFailure(old(variants), id, Assignments(patch)).Some?) ==>
        r == ServerError(WriteFailure(old(variants), id, Assignments(patch)).value)
      ensures r.ServerError? ==>
        && id in old(variants)
        && !RejectsAmount(patch.priceCents) && !RejectsAmount(patch.inventoryCount)
        && WriteFailure(old(variants), id, Assignments(patch)) == Some(r.error)
      ensures r.ServerError? ==> patch.sku.ExplicitNull? || patch.name.ExplicitNull? || patch.sku == Given("")
      ensures r.Ok? ==>
        && id in old(variants)
        && !patch.name.ExplicitNull? && !patch.sku.ExplicitNull?
        && !RejectsAmount(patch.priceCents) && !RejectsAmount(patch.inventoryCount)
        && clock == (if PatchesSomething(patch) then old(clock) + 1 else old(clock))
        && variants == old(variants)[id := PatchVariant(old(variants)[id], patch, clock)]
        && products == old(products)
        && nextProductId == old(nextProductId) && nextVariantId == old(nextVariantId)
        && r == Ok(variants[id])
    {
      if id !in variants {
        return NotFound(VariantNotFound);
      }
      var existing := variants[id];
      if ChangesSku(patch.sku, existing.sku) && SkuHeldElsewhere(variants, id, patch.sku.value) {
        return BadRequest(SkuExists);
      }
      if RejectsAmount(patch.priceCents) {
        return BadRequest(PriceInvalid);
      }
      if RejectsAmount(patch.inventoryCount) {
        return BadRequest(InventoryInvalid);
      }
      var updates := PushAssignments(patch);
      if |updates| > 0 {
        var failure := WriteVariant(id, updates);
        if failure.Some? {
          if failure.value == UniqueSku {
            ghost var a :| a in updates && a.SetSku? && a.sku.Some? && SkuHeldElsewhere(old(variants), id, a.sku.value);
            OnlyEmptySkuReachesUnique(old(variants), id, a.sku.value);
          }
          return ServerError(failure.value);
        }
        AssignmentsPerformPatch(existing, patch, clock);
      } else {
        AssignmentsPerformPatch(existing, patch, clock);
        assert variants == variants[id := existing];
      }
      r := Ok(variants[id]);
    }

    /** DELETE /variants/:id: 404, then 400 when the owning product has at
        most one variant; otherwise the row is removed and nothing else
        changes. */
    method DeleteVariant(id: int) returns (r: Response<bool>)
      requires Valid()
      modifies this
      ensures Valid()
      ensures id !in old(variants) ==> r == NotFound(VariantNotFound) && unchanged(this)
      ensures id in old(variants) && VariantCount(old(variants), old(variants)[id].productId) <= 1 ==>
        r == BadRequest(LastVariant) && unchanged(this)
      ensures id in old(variants) && VariantCount(old(variants), old(variants)[id].productId) > 1 ==>
        && r == Ok(true)
        && variants == old(variants) - {id}
        && VariantCount(variants, old(variants)[id].productId) == VariantCount(old(variants), old(variants)[id].productId) - 1
        && products == old(products) && clock == old(clock)
        && nextProductId == old(nextProductId) && nextVariantId == old(nextVariantId)
    {
      if id !in variants {
        return NotFound(VariantNotFound);
      }
      var siblings := VariantCount(variants, variants[id].productId);
      if siblings <= 1 {
        return BadRequest(LastVariant);
      }
      DeleteVariantKeepsConsistent(products, variants, clock, nextProductId, nextVariantId, id);
      DeleteVariantCounts(variants, id);
      variants := variants - {id};
      r := Ok(true);
    }
  }
}
