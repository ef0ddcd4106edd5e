/** Rows of the catalogue tables and the shapes the read queries return.
    Timestamps are readings of the store's logical clock. */
module Rows {
  import opened Values

  /** A row of `products`. `deletedAt` is set by a soft delete and never cleared. */
  datatype Product = Product(
    id: int,
    name: string,
    description: Option<string>,
    categoryId: Option<int>,
    status: string,
    deletedAt: Option<nat>,
    createdAt: nat,
    updatedAt: nat)

  /** A row of `variants`; `productId` names the owning product. */
  datatype Variant = Variant(
    id: int,
    productId: int,
    sku: string,
    name: string,
    priceCents: int,
    inventoryCount: int,
    createdAt: nat,
    updatedAt: nat)

  /** `SELECT p.*, c.name AS category_name ... LEFT JOIN categories` */
  datatype ProductView = ProductView(product: Product, categoryName: Option<string>)

  /** A product with its variants, the body of GET /products/:id. */
  datatype ProductDetail = ProductDetail(view: ProductView, variants: seq<Variant>)

  /** One row of the product list: the product, its category name and the
      aggregates over its variants (NULL min/max when it has none). */
  datatype ProductSummary = ProductSummary(
    view: ProductView,
    variantCount: nat,
    minPriceCents: Option<int>,
    maxPriceCents: Option<int>,
    totalInventory: int)

  /** Every row sits under its own id, as a table's primary key guarantees. */
  predicate ProductsKeyed(products: map<int, Product>)
  {
    forall k :: k in products ==> products[k].id == k
  }

  predicate VariantsKeyed(variants: map<int, Variant>)
  {
    forall k :: k in variants ==> variants[k].id == k
  }

  /** The variant ordering of `ORDER BY created_at ASC`, rows created at the
      same instant in insertion (id) order. */
  predicate CreatedBefore(a: Variant, b: Variant)
  {
    a.createdAt < b.createdAt || (a.createdAt == b.createdAt && a.id < b.id)
  }

  /** The product ordering of `ORDER BY created_at DESC`, ties newest id first. */
  predicate ListedBefore(a: Product, b: Product)
  {
    a.createdAt > b.createdAt || (a.createdAt == b.createdAt && a.id > b.id)
  }
}
