# Catalogue store

A Dafny model of the product-catalogue backend: the Express routes in
`backend/src/routes/products.ts` (list, get, create, merge update, soft
delete) and `backend/src/routes/variants.ts` (get, merge-patch update, guarded
hard delete). The model treats them as one in-memory store,
`Store.CatalogueStore`. The store holds:

- the `products` and `variants` tables, as maps from rowid to row;
- a fixed category-name lookup, used for the `category_name` join;
- a logical clock standing for `datetime('now')`;
- the next rowid of each table.

The write routes are methods that change the store in place. A create, a
product update, a soft delete and a variant update that supplies at least one
field advance the clock by one and stamp the rows they write with the new
instant. A variant delete and a variant update that supplies no field leave
the clock as it was.
The read routes are functions of the tables (module `Queries`). HTTP outcomes
are the `Response` datatype: `Ok`, `Created`, `BadRequest`, `NotFound`,
`Conflict` and `ServerError`, each carrying the handler's message. JSON body
fields are one of two types:

- `Json` (undefined, null, boolean, number, string or composite) where the
  handler checks `typeof`;
- `Field` (omitted, explicit null or given) where the value is passed through
  to SQL.

Modules:

- `Values`: options, results, JSON values, responses.
- `Rows`: the row types and their orderings.
- `Ordering`: sorting rowids by (created_at, id).
- `Aggregates`: `SUM`, `MIN` and `MAX`.
- `Validation`: request bodies and the create checks.
- `Queries`: the reads.
- `Store`: the store invariant, the writes and their lemmas.

The store invariant `Store.Consistent`, held by `CatalogueStore.Valid`, says:

- every row sits under its own id;
- SKUs are unique (`UNIQUE(variants.sku)`);
- every variant belongs to a product;
- prices and stock are non-negative;
- every product has at least one variant;
- ids lie below the rowid counters, and stamps lie no later than the clock.

Every write method keeps this invariant.

Where the code differs from what one might expect, the model follows the code:

- Soft delete of a product that is already deleted re-stamps the row and
  answers success.
- List and get do not filter on `deleted_at`.
- Product update neither checks `deleted_at` nor validates `status`.
- The variant-update SKU conflict answers 400, not 409.
- The variant-update pre-check skips an empty SKU. If another row holds the
  empty SKU, the table's UNIQUE constraint answers 500.
- Writing a null `sku` or `name` in a variant update also answers 500. The
  model takes both columns to be NOT NULL, which the schema file (not part of
  this model) is assumed to declare.
- The model assumes no other schema constraint: no CHECK on `products.status`
  and no enforced FOREIGN KEY on `products.category_id`. A product update may
  therefore store any status and any category id, and a category id the
  lookup does not know joins to a null category name.

## Model

| member | source | states |
|---|---|---|
| Validation.NormaliseStatus | backend/src/routes/products.ts:122-124 | the status kept is always one of active/draft/archived: the given one when it is a string among them, "active" otherwise |
| Validation.TextOrNull | backend/src/routes/products.ts:163 | `description \|\| null`: null iff the description is missing or empty, otherwise that text |
| Validation.IdOrNull | backend/src/routes/products.ts:163 | `category_id \|\| null`: null iff the id is missing or 0, otherwise that id |
| Validation.ItemProblem | backend/src/routes/products.ts:128-140 | a variant element passes iff its sku and name are non-empty strings and price_cents and inventory_count are non-negative numbers; the checks run in source order: a bad sku is reported whatever else is wrong, a bad name only with a good sku, a bad price only with good sku and name, a bad stock only when the other three pass |
| Validation.ProblemMessage | backend/src/routes/products.ts:129-140 | the message is "Variant at index ", then the decimal index, then the failed check's own requirement text |
| Validation.ProblemMessagesDistinct | backend/src/routes/products.ts:129-140 | two different failed checks at one index give two different messages |
| Validation.Accept | backend/src/routes/products.ts:157-158 | an element that passed the checks binds exactly its own sku, name, price and stock, all non-empty / non-negative |
| Validation.FirstProblem | backend/src/routes/products.ts:127-141 | no problem iff every element passes; otherwise the reported index fails a check and every earlier index passes |
| Validation.FirstProblemAt | backend/src/routes/products.ts:127-141 | an element that fails after only passing ones is the one reported, with the check it fails first |
| Validation.CheckCreate | backend/src/routes/products.ts:114-141 | a name that is missing, empty or not a string is refused first; then a non-array or empty variants list; then the first failing element's message; success iff all pass, binding the normalised status, `description \|\| null`, `category_id \|\| null` and the accepted variants in input order |
| Validation.ValidateCreate | backend/src/routes/products.ts:114-141 | the early-return scan over the elements gives exactly CheckCreate's answer |
| Validation.RejectsAmount | backend/src/routes/variants.ts:68-73 | a price or stock is refused iff it is present and not a non-negative number: null, strings, booleans and objects are refused, an absent field is accepted |
| Validation.ChangesSku | backend/src/routes/variants.ts:58 | the pre-check runs only for a given SKU that differs from the current one; never for an absent, null, empty or unchanged SKU |
| Aggregates.Sum | backend/src/routes/products.ts:29 | 0 over no rows (the COALESCE), the value itself over one row; the sum of non-negative values is non-negative and bounds each of them |
| Aggregates.SumConcat | backend/src/routes/products.ts:29 | the sum over two runs of rows is the sum of their sums |
| Aggregates.SumPermutation | backend/src/routes/products.ts:29 | `SUM` does not depend on the order of the rows: any rearrangement has the same sum |
| Aggregates.Min | backend/src/routes/products.ts:27 | no minimum iff no rows; otherwise it is one of the values and no larger than any |
| Aggregates.Max | backend/src/routes/products.ts:28 | no maximum iff no rows; otherwise it is one of the values and no smaller than any |
| Ordering.EarliestExists | backend/src/routes/products.ts:84 | every non-empty set of rowids has an earliest member under (created_at, id) |
| Ordering.Ascending | backend/src/routes/products.ts:84 | the sorted sequence holds each id of the set exactly once, in ascending (created_at, id) order |
| Ordering.AscendsUnique | backend/src/routes/products.ts:84 | two ascending sequences over the same ids are equal: the order is fully determined |
| Ordering.Descending | backend/src/routes/products.ts:52 | the newest-first sequence holds each id exactly once, in descending (created_at, id) order |
| Ordering.SameStampAscending | backend/src/routes/products.ts:176 | rowids stamped at one instant sort in rowid order |
| Queries.CategoryName | backend/src/routes/products.ts:31 | the category name is present iff the product has a category id the lookup knows, and then it is that category's name |
| Queries.VariantCount | backend/src/routes/variants.ts:131-137 | the count is positive iff some variant row belongs to the product |
| Queries.OrderedVariantIds | backend/src/routes/products.ts:84 | the product's variant ids, each once, ascending by (created_at, id), as many as its variant count |
| Queries.SameInstantInRowidOrder | backend/src/routes/products.ts:175-177 | a product whose variants are consecutive rowids created at one instant lists them in rowid order |
| Queries.VariantsOf | backend/src/routes/products.ts:82-86 | exactly the product's own variant rows, each as stored, oldest first |
| Queries.GetProduct | backend/src/routes/products.ts:67-93 | 404 "Product not found" iff no row has the id (soft-deleted rows are found); otherwise the row, its category name, and exactly its own variants ordered by created_at ascending |
| Queries.GetVariant | backend/src/routes/variants.ts:10-25 | the row with the id, or 404 "Variant not found" iff there is none |
| Queries.Contains | backend/src/routes/products.ts:40 | the text contains the term iff the term occurs at some position of it |
| Queries.Like | backend/src/routes/products.ts:38-41 | `LIKE '%term%'` holds iff the folded term occurs in the folded text; an empty term matches every text |
| Queries.Matches | backend/src/routes/products.ts:35-50 | no filters match every product; a category filter requires that category id; a search requires the name or the description to match; a null description with a non-matching name does not match |
| Queries.Summarize | backend/src/routes/products.ts:26-32 | one list row: the product with its category name, variant_count equal to its number of variants, min/max price null iff it has none, total_inventory the sum of its variants' stock (0 when it has none) |
| Queries.SummaryMinPrice | backend/src/routes/products.ts:27 | min_price_cents is the price of one of the product's variants and at most every one of their prices |
| Queries.SummaryMaxPrice | backend/src/routes/products.ts:28 | max_price_cents is the price of one of the product's variants and at least every one of their prices |
| Queries.SummaryTotalInventory | backend/src/routes/products.ts:29 | with non-negative stock, total_inventory is non-negative and at least each variant's stock |
| Queries.TotalInventoryAnyOrder | backend/src/routes/products.ts:29 | total_inventory is the sum of the product's stock taken in any order of its variants |
| Queries.ListedIds | backend/src/routes/products.ts:35-52 | the listed ids are exactly the products passing the search AND category filters, each once, newest first |
| Queries.ListProducts | backend/src/routes/products.ts:11-61 | every listed row is a stored product (soft-deleted included) that passes the filters, with its own category name and aggregates; every stored product that passes the filters is listed; rows are newest first by (created_at, id), so none is listed twice |
| Store.InsertedRowsAt | backend/src/routes/products.ts:157-159 | the loop's inserts occupy exactly rowids first .. first+N-1, the i-th holding the i-th input |
| Store.InsertStep | backend/src/routes/products.ts:157-159 | one more insert of the loop extends the inserted rows by the next input |
| Store.ClashBreaksFree | backend/src/routes/products.ts:157-159 | an insert that hits UNIQUE(sku) shows the batch clashes with the table or with itself |
| Store.FreeExtends | backend/src/routes/products.ts:158 | an insert that does not hit UNIQUE(sku) extends the clash-free prefix by one |
| Store.InsertKeepsSkusUnique | backend/src/routes/products.ts:153-161 | a clash-free batch under fresh rowids keeps SKUs unique |
| Store.InsertKeepsNeverEmpty | backend/src/routes/products.ts:153-161 | the new product gets at least one variant and no existing product loses one |
| Store.InsertKeepsRows | backend/src/routes/products.ts:153-161 | the inserted rows are keyed, owned by the new product, non-negative, below the next rowid and stamped now |
| Store.CreateKeepsConsistent | backend/src/routes/products.ts:153-163 | a committed create keeps the store invariant |
| Store.NewProductOwnsBatch | backend/src/routes/products.ts:155-159 | after the inserts, the new product owns exactly the inserted rowids |
| Store.BatchInRowidOrder | backend/src/routes/products.ts:175-177 | the new product's variants come back in rowid order |
| Store.BatchRows | backend/src/routes/products.ts:157-159 | rowid first+i holds the row built from the i-th input, stamped now |
| Store.CreatedVariantsInInputOrder | backend/src/routes/products.ts:175-179 | the created product answers exactly N variants, in input order, each with its input sku, name, price and stock, owned by the new product |
| Store.CreatedDetail | backend/src/routes/products.ts:166-179 | the answer of a committed create is found and shows the inserted product row and one variant per input, in input order, under consecutive rowids |
| Store.CreatedTotalInventory | backend/src/routes/products.ts:153-161 | in the list, a product just created has one variant per input and total_inventory equal to the sum of the inputs' stock |
| Store.CreatedPriceRange | backend/src/routes/products.ts:153-161 | in the list, a product just created has min_price_cents and max_price_cents equal to the least and the greatest of the inputs' prices |
| Store.PatchProduct | backend/src/routes/products.ts:206-214 | each of name, description, category_id and status is overwritten only when given non-null, and kept otherwise; id, deleted_at and created_at are kept; updated_at is now |
| Store.SoftDeleted | backend/src/routes/products.ts:248-250 | deleted_at and updated_at become now, whatever deleted_at held; every other column is kept |
| Store.ProductWriteKeepsConsistent | backend/src/routes/products.ts:206-250 | rewriting a product's own columns keeps the store invariant (variants untouched) |
| Store.WriteFailure | backend/src/routes/variants.ts:95-101 | the UPDATE fails on a null sku (checked first), on a null name, or on a SKU another row holds, and on nothing else |
| Store.ApplyOne | backend/src/routes/variants.ts:78-93 | one assignment overwrites its own column with its value and keeps every other column, the id, the owner and the stamps |
| Store.Apply | backend/src/routes/variants.ts:95-101 | an UPDATE keeps the id, owner and stamps; the sku, price and stock either stay or take a value one of the assignments carries |
| Store.ApplyConcat | backend/src/routes/variants.ts:99 | applying two lists of assignments in turn is applying their concatenation |
| Store.Assignments | backend/src/routes/variants.ts:75-93 | none iff the patch supplies nothing; a null sku/name assignment iff the patch sets it to null; each carried name, sku, price and stock is the patch's own value |
| Store.AssignmentsCoverSupplied | backend/src/routes/variants.ts:78-93 | a column gets an assignment iff its field is present in the body (name, sku, price, stock), and a non-null name assignment carries the body's name |
| Store.PushAssignments | backend/src/routes/variants.ts:75-93 | the pushes build exactly the assignments of the patch |
| Store.PatchVariant | backend/src/routes/variants.ts:75-101 | each supplied field is overwritten and every other one kept; id, product_id and created_at are kept; updated_at changes only if something was supplied |
| Store.AssignmentsPerformPatch | backend/src/routes/variants.ts:75-101 | the pushed assignments, written with a fresh updated_at, perform exactly the merge-patch; an empty patch leaves the row as it was |
| Store.OnlyEmptySkuReachesUnique | backend/src/routes/variants.ts:57-101 | a SKU that passes the pre-check and still hits UNIQUE is the empty string |
| Store.VariantWriteKeepsConsistent | backend/src/routes/variants.ts:95-101 | writing a variant row with a SKU no other row holds and non-negative amounts keeps the store invariant |
| Store.DeleteVariantCounts | backend/src/routes/variants.ts:131-143 | deleting a variant of a product with more than one removes exactly one from its count, leaving at least one, and no other product's count changes |
| Store.DeleteVariantKeepsConsistent | backend/src/routes/variants.ts:137-143 | a guarded variant delete keeps the store invariant, every product keeping a variant |
| Store.CatalogueStore.CreateTransaction | backend/src/routes/products.ts:153-183 | commits iff the batch's SKUs are new to the table and pairwise distinct; on commit, one product row and N variant rows under fresh rowids stamped now; otherwise the transaction rolls back and nothing changes |
| Store.CatalogueStore.CreateProduct | backend/src/routes/products.ts:110-187 | a failed check answers 400 with its message and changes nothing; a SKU clash answers 409 "One or more SKUs are already in use." and changes nothing; otherwise 201 with the new product as the get route reads it: its row as inserted and exactly one variant per input, the i-th with the i-th input's sku, name, price and stock under the i-th fresh rowid |
| Store.CatalogueStore.UpdateProduct | backend/src/routes/products.ts:193-230 | 404 and no change for an unknown id; otherwise the COALESCE merge on that row only, answering the updated row with its category name |
| Store.CatalogueStore.SoftDeleteProduct | backend/src/routes/products.ts:236-253 | 404 and no change for an unknown id; otherwise success, the row kept and stamped deleted (also when it already was), the variants untouched |
| Store.CatalogueStore.WriteVariant | backend/src/routes/variants.ts:95-101 | the write fails exactly as WriteFailure says and then changes nothing; otherwise only that row changes, to the assignments applied and stamped now |
| Store.CatalogueStore.UpdateVariant | backend/src/routes/variants.ts:39-112 | each outcome iff its condition, in source order: 404 iff the id is unknown; 400 "SKU already exists" iff a changed non-empty SKU is held by another row (never for the current SKU); then the price and the stock 400s; success iff those checks pass and the UPDATE raises no constraint error; a 500 carries exactly the constraint error the UPDATE raises (only for a null sku or name or an empty sku); every refusal changes nothing; success applies the merge-patch to that row only and answers it |
| Store.CatalogueStore.DeleteVariant | backend/src/routes/variants.ts:118-149 | 404 and no change for an unknown id; 400 "Cannot delete the last variant of a product" and no change when the product has at most one variant; otherwise exactly that row is removed and the product's count drops by one |

## Left out

- HTTP plumbing is not modelled: Express routing, `req`/`res`, status codes
  as numbers, and plain-text versus JSON error bodies. The 404 of soft
  delete, for example, is plain text, and the model gives the same
  `NotFound` value.
- The generic 500 catch paths are not modelled, apart from the constraint
  failures of the variant `UPDATE`. These include a `null` element inside the
  create request's `variants` array, which raises a TypeError.
- Query-string parsing of `GET /products` is not modelled. `Number(category_id)`
  becomes an already-parsed optional id, and an empty `search` means no filter.
- `Queries.Like`: the `LIKE` collation is not modelled. Its case handling is
  the `fold` parameter, and `%`/`_` characters inside the search term are
  treated as literal text.
- SQL string building is not modelled: the `conditions`/`params` pushes of the
  list and the `updates.join` of the variant update. They are the `Matches`
  predicate and the `Assignment` list.
- `Queries.ListProducts`: SQLite leaves the order of products with equal
  `created_at` unspecified. The model breaks ties by the higher id.
- `Queries.VariantsOf`: SQLite also leaves the order of variants with equal
  `created_at` unspecified under `ORDER BY created_at ASC`. The model breaks
  ties by the lower rowid. `Queries.GetProduct`, `Store.BatchInRowidOrder`,
  `Store.CreatedVariantsInInputOrder` and `Store.CreatedDetail` rest on that
  choice, so the input order of a created product's variants is a property of
  the model, not a promise of the database.
- `Validation.ProblemMessagesDistinct`: compares messages at one index only.
  Distinctness across indices and from the request-level messages is not
  stated.
- Wall-clock time is not modelled. `datetime('now')` and `CURRENT_TIMESTAMP`
  have one-second resolution; the model uses a logical clock that advances by
  one per write that stamps a row.
- SQLite's reuse of the rowids of deleted rows is not modelled. The next rowid
  of each table only grows.
- JavaScript numbers are modelled as integers, so fractional prices, stock,
  `NaN` and infinities are left out.
- Pass-through fields (`description`, `category_id`, the product-update
  fields, and the variant-update `name` and `sku`) are typed at their column
  type. A number sent as a name, for example, is not modelled.
- `Store.CatalogueStore.CreateProduct`: the 409 depends on the error message
  containing "UNIQUE constraint failed: variants.sku". The model takes every
  SKU clash of the transaction to raise that message.
- The schema file `backend/src/db.ts` is not part of this model. The NOT NULL
  constraints on `variants.sku` and `variants.name`, and the defaults of the
  `created_at`/`updated_at` columns, are assumptions.
- The category routes are not modelled; their source is not part of this
  model. Only the category-name lookup used by the join is kept, fixed at
  construction.
- The frontend pages and components are not modelled. They are UI state,
  rendering and `fetch` calls.
