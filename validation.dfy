/** Request bodies of the write routes and the checks the handlers run on
    them before touching the store (products.ts POST, variants.ts PUT). */
module Validation {
  import opened Values

  const NameRequired := "Product name is required and must be a string."
  const VariantsRequired := "At least one variant is required."
  const ValidStatuses: seq<string> := ["active", "draft", "archived"]
  const DefaultStatus := "active"

  const SkuExists := "SKU already exists"
  const PriceInvalid := "price_cents must be a positive number"
  const InventoryInvalid := "inventory_count must be a positive number"

  /** One element of the `variants` array of a create request. An element that
      is a number, string or array reads every field as `Undefined`. */
  datatype VariantInput = VariantInput(sku: Json, name: Json, priceCents: Json, inventoryCount: Json)

  /** `Array.isArray(variants)` distinguishes only these two cases. */
  datatype VariantList = NotArray | Array(items: seq<VariantInput>)

  /** Body of POST /products. */
  datatype CreateRequest = CreateRequest(
    name: Json,
    description: Field<string>,
    categoryId: Field<int>,
    status: Json,
    variants: VariantList)

  /** A variant that passed validation, ready to insert. */
  datatype NewVariant = NewVariant(sku: string, name: string, priceCents: int, inventoryCount: int)

  /** A create request that passed validation, with the values the insert binds. */
  datatype NewProduct = NewProduct(
    name: string,
    description: Option<string>,
    categoryId: Option<int>,
    status: string,
    variants: seq<NewVariant>)

  /** Body of PUT /products/:id; `x ?? null` makes omitted and null alike. */
  datatype ProductPatch = ProductPatch(
    name: Field<string>,
    description: Field<string>,
    categoryId: Field<int>,
    status: Field<string>)

  /** Body of PUT /variants/:id. */
  datatype VariantPatch = VariantPatch(
    name: Field<string>,
    sku: Field<string>,
    priceCents: Json,
    inventoryCount: Json)

  /** The check of a variant element that failed, in the order they run. */
  datatype Problem = InvalidSku | InvalidName | InvalidPrice | InvalidInventory

  /** `status && validStatuses.includes(status) ? status : "active"` */
  function NormaliseStatus(status: Json): (r: string)
    ensures r in ValidStatuses
    ensures status.Str? && status.s in ValidStatuses ==> r == status.s
    ensures !(status.Str? && status.s in ValidStatuses) ==> r == DefaultStatus
  {
    if Truthy(status) && status.Str? && status.s in ValidStatuses then status.s else DefaultStatus
  }

  /** `value || null` on a text field. */
  function TextOrNull(f: Field<string>): (r: Option<string>)
    ensures r.Some? <==> f.Given? && f.value != ""
    ensures r.Some? ==> r.value == f.value
  {
    if f.Given? && f.value != "" then Some(f.value) else None
  }

  /** `value || null` on a numeric field. */
  function IdOrNull(f: Field<int>): (r: Option<int>)
    ensures r.Some? <==> f.Given? && f.value != 0
    ensures r.Some? ==> r.value == f.value
  {
    if f.Given? && f.value != 0 then Some(f.value) else None
  }

  /** The first of the four checks that a variant element fails, if any. */
  function ItemProblem(v: VariantInput): (r: Option<Problem>)
    ensures r.None? <==>
      NonEmptyString(v.sku) && NonEmptyString(v.name) &&
      NonNegativeNumber(v.priceCents) && NonNegativeNumber(v.inventoryCount)
    ensures !NonEmptyString(v.sku) ==> r == Some(InvalidSku)
    ensures NonEmptyString(v.sku) && !NonEmptyString(v.name) ==> r == Some(InvalidName)
    ensures NonEmptyString(v.sku) && NonEmptyString(v.name) && !NonNegativeNumber(v.priceCents) ==>
      r == Some(InvalidPrice)
    ensures (NonEmptyString(v.sku) && NonEmptyString(v.name) && NonNegativeNumber(v.priceCents) &&
             !NonNegativeNumber(v.inventoryCount)) ==> r == Some(InvalidInventory)
  {
    if !NonEmptyString(v.sku) then Some(InvalidSku)
    else if !NonEmptyString(v.name) then Some(InvalidName)
    else if !NonNegativeNumber(v.priceCents) then Some(InvalidPrice)
    else if !NonNegativeNumber(v.inventoryCount) then Some(InvalidInventory)
    else None
  }

  /** What the message says the element lacks. */
  function Requirement(p: Problem): string
  {
    match p
    case InvalidSku => " requires a valid SKU."
    case InvalidName => " requires a valid name."
    case InvalidPrice => " requires price_cents >= 0."
    case InvalidInventory => " requires inventory_count >= 0."
  }

  /** The 400 message of a failing element: it names the index and the check. */
  function ProblemMessage(i: nat, p: Problem): (r: string)
    ensures |r| == 17 + |NatToString(i)| + |Requirement(p)|
    ensures r[..17] == "Variant at index "
    ensures r[17..|r| - |Requirement(p)|] == NatToString(i)
    ensures r[|r| - |Requirement(p)|..] == Requirement(p)
  {
    var prefix := "Variant at index " + NatToString(i);
    assert (prefix + Requirement(p))[..17] == prefix[..17];
    prefix + Requirement(p)
  }

  /** Different checks failing at one index give different messages. */
  lemma ProblemMessagesDistinct(i: nat, p: Problem, q: Problem)
    requires p != q
    ensures ProblemMessage(i, p) != ProblemMessage(i, q)
  {
    assert |Requirement(p)| != |Requirement(q)|;
  }

  /** The values an element that passed every check binds to the insert. */
  function Accept(v: VariantInput): (r: NewVariant)
    requires ItemProblem(v).None?
    ensures r.sku != "" && Str(r.sku) == v.sku
    ensures r.name != "" && Str(r.name) == v.name
    ensures r.priceCents >= 0 && Num(r.priceCents) == v.priceCents
    ensures r.inventoryCount >= 0 && Num(r.inventoryCount) == v.inventoryCount
  {
    NewVariant(v.sku.s, v.name.s, v.priceCents.n, v.inventoryCount.n)
  }

  /** The lowest index whose element fails a check, with the check it fails. */
  function FirstProblem(items: seq<VariantInput>): (r: Option<(nat, Problem)>)
    ensures r.None? <==> forall i :: 0 <= i < |items| ==> ItemProblem(items[i]).None?
    ensures r.Some? ==>
      r.value.0 < |items| && ItemProblem(items[r.value.0]) == Some(r.value.1) &&
      forall j :: 0 <= j < r.value.0 ==> ItemProblem(items[j]).None?
  {
    if items == [] then None
    else
      match ItemProblem(items[0])
      case Some(p) => Some((0, p))
      case None =>
        assert forall i :: 1 <= i < |items| ==> items[i] == items[1..][i - 1];
        match FirstProblem(items[1..])
        case None => None
        case Some(found) => Some((found.0 + 1, found.1))
  }

  /** An element that fails a check after only passing ones is the one reported. */
  lemma FirstProblemAt(items: seq<VariantInput>, i: nat)
    requires i < |items| && ItemProblem(items[i]).Some?
    requires forall j :: 0 <= j < i ==> ItemProblem(items[j]).None?
    ensures FirstProblem(items) == Some((i, ItemProblem(items[i]).value))
  {
    var found := FirstProblem(items);
    assert found.Some?;
    assert !(found.value.0 < i);
    assert !(found.value.0 > i);
  }

  /** What POST /products answers before any insert: the first failing check's
      message, or the values the transaction will bind. */
  function CheckCreate(req: CreateRequest): (r: Result<NewProduct>)
    ensures r.Success? <==>
      NonEmptyString(req.name) && req.variants.Array? && req.variants.items != [] &&
      forall i :: 0 <= i < |req.variants.items| ==> ItemProblem(req.variants.items[i]).None?
    ensures !NonEmptyString(req.name) ==> r == Failure(NameRequired)
    ensures NonEmptyString(req.name) && (req.variants.NotArray? || req.variants.items == []) ==>
      r == Failure(VariantsRequired)
    ensures NonEmptyString(req.name) && req.variants.Array? && req.variants.items != [] ==>
      match FirstProblem(req.variants.items)
      case Some(found) => r == Failure(ProblemMessage(found.0, found.1))
      case None => r.Success?
    ensures r.Success? ==>
      && r.value.name == req.name.s
      && r.value.status == NormaliseStatus(req.status)
      && r.value.description == TextOrNull(req.description)
      && r.value.categoryId == IdOrNull(req.categoryId)
      && |r.value.variants| == |req.variants.items|
      && forall i :: 0 <= i < |r.value.variants| ==>
           r.value.variants[i] == Accept(req.variants.items[i])
  {
    if !NonEmptyString(req.name) then Failure(NameRequired)
    else if req.variants.NotArray? || req.variants.items == [] then Failure(VariantsRequired)
    else
      var items := req.variants.items;
      match FirstProblem(items)
      case Some(found) => Failure(ProblemMessage(found.0, found.1))
      case None =>
        Success(NewProduct(
          req.name.s, TextOrNull(req.description), IdOrNull(req.categoryId),
          NormaliseStatus(req.status),
          seq(|items|, i requires 0 <= i < |items| => Accept(items[i]))))
  }

  /** The handler's validation as it runs: the name check, the array check,
      the status default, then one pass over the elements that stops at the
      first failure. */
  method ValidateCreate(req: CreateRequest) returns (r: Result<NewProduct>)
    ensures r == CheckCreate(req)
  {
    if !Truthy(req.name) || !req.name.Str? {
      return Failure(NameRequired);
    }
    if !req.variants.Array? || |req.variants.items| == 0 {
      return Failure(VariantsRequired);
    }
    var items := req.variants.items;
    var status := NormaliseStatus(req.status);
    var i := 0;
    while i < |items|
      invariant 0 <= i <= |items|
      invariant forall j :: 0 <= j < i ==> ItemProblem(items[j]).None?
    {
      var v := items[i];
      if !Truthy(v.sku) || !v.sku.Str? {
        FirstProblemAt(items, i);
        return Failure(ProblemMessage(i, InvalidSku));
      }
      if !Truthy(v.name) || !v.name.Str? {
        FirstProblemAt(items, i);
        return Failure(ProblemMessage(i, InvalidName));
      }
      if !v.priceCents.Num? || v.priceCents.n < 0 {
        FirstProblemAt(items, i);
        return Failure(ProblemMessage(i, InvalidPrice));
      }
      if !v.inventoryCount.Num? || v.inventoryCount.n < 0 {
        FirstProblemAt(items, i);
        return Failure(ProblemMessage(i, InvalidInventory));
      }
      i := i + 1;
    }
    var accepted := seq(|items|, j requires 0 <= j < |items| => Accept(items[j]));
    r := Success(NewProduct(req.name.s, TextOrNull(req.description), IdOrNull(req.categoryId), status, accepted));
  }

  /** `x !== undefined && (typeof x !== "number" || x < 0)` */
  predicate RejectsAmount(j: Json): (r: bool)
    ensures !r <==> j == Undefined || (j.Num? && j.n >= 0)
    ensures j.Null? || j.Str? || j.Bool? || j.Composite? ==> r
  {
    j != Undefined && !NonNegativeNumber(j)
  }

  /** `sku && sku !== existing.sku`: the update asks for the uniqueness check
      only for a non-empty SKU that differs from the current one. */
  predicate ChangesSku(sku: Field<string>, current: string): (r: bool)
    ensures r ==> sku.Given? && sku.value != current
    ensures sku == Given(current) || sku == Given("") || !sku.Given? ==> !r
  {
    sku.Given? && sku.value != "" && sku.value != current
  }

  /** Whether a variant patch names any column at all. */
  predicate PatchesSomething(patch: VariantPatch)
  {
    Supplied(patch.name) || Supplied(patch.sku) ||
    patch.priceCents != Undefined || patch.inventoryCount != Undefined
  }
}
