/** The catalog records of drfecommerce/product/models.py and the rules the model layer
    enforces on them: the active-only filter, the product line's duplicate check, the unique
    columns, the on-delete policy of every reference and the name order of sibling categories.
    A store is one sequence of records per table. */
module Catalog {
  import opened Wrappers
  import opened Sequences
  import opened Lexicographic
  import OrderField

  type Id = nat

  /** A category node; `parent` is `None` for a root. */
  datatype Category = Category(id: Id, name: string, parent: Option<Id>, isActive: bool)

  datatype Brand = Brand(id: Id, name: string, isActive: bool)

  /** A product; it belongs to one brand and at most one category. */
  datatype Product = Product(
    id: Id, name: string, slug: string, description: string, isDigital: bool,
    brand: Id, isActive: bool, category: Option<Id>)

  /** A stored product line. `price` counts hundredths (two decimal places). */
  datatype ProductLine = ProductLine(
    id: Id, price: int, sku: string, stockQty: int, isActive: bool, product: Id, order: nat)

  /** A product line as the program holds it before it is saved: its order may be unset. */
  datatype LineDraft = LineDraft(
    price: int, sku: string, stockQty: int, isActive: bool, product: Id, order: Option<nat>)

  datatype Store = Store(
    categories: seq<Category>, brands: seq<Brand>, products: seq<Product>, lines: seq<ProductLine>)

  /** The columns whose uniqueness the database enforces. */
  datatype Column = PrimaryKey | CategoryName | BrandName | ProductSlug | LineSku

  datatype Error =
    | UniqueViolation(column: Column)   // an insert repeats a unique value
    | MissingReference                  // an insert refers to a row that does not exist
    | Protected                         // a delete meets an on_delete=PROTECT reference
    | DuplicateValue                    // the product line's own duplicate check

  // Key projections, one per unique column.
  function CategoryIdOf(c: Category): Id { c.id }
  function CategoryNameOf(c: Category): string { c.name }
  function BrandIdOf(b: Brand): Id { b.id }
  function BrandNameOf(b: Brand): string { b.name }
  function ProductIdOf(p: Product): Id { p.id }
  function ProductSlugOf(p: Product): string { p.slug }
  function LineIdOf(l: ProductLine): Id { l.id }
  function LineSkuOf(l: ProductLine): string { l.sku }

  predicate HasCategory(s: Store, id: Id) { exists c :: c in s.categories && c.id == id }
  predicate HasBrand(s: Store, id: Id) { exists b :: b in s.brands && b.id == id }
  predicate HasProduct(s: Store, id: Id) { exists p :: p in s.products && p.id == id }

  /** What the database guarantees of every committed state: unique primary keys and unique
      columns across each whole table, and every reference resolving to a stored row. */
  ghost predicate Valid(s: Store) {
    KeysUnique(s) && ReferencesResolve(s)
  }

  ghost predicate KeysUnique(s: Store) {
    && UniqueBy(s.categories, CategoryIdOf) && UniqueBy(s.categories, CategoryNameOf)
    && UniqueBy(s.brands, BrandIdOf) && UniqueBy(s.brands, BrandNameOf)
    && UniqueBy(s.products, ProductIdOf) && UniqueBy(s.products, ProductSlugOf)
    && UniqueBy(s.lines, LineIdOf) && UniqueBy(s.lines, LineSkuOf)
  }

  ghost predicate ReferencesResolve(s: Store) {
    && (forall c :: c in s.categories && c.parent.Some? ==> HasCategory(s, c.parent.value))
    && (forall p :: p in s.products ==> HasBrand(s, p.brand))
    && (forall p :: p in s.products && p.category.Some? ==> HasCategory(s, p.category.value))
    && (forall l :: l in s.lines ==> HasProduct(s, l.product))
  }

  /** No two lines of one product share an order. The model layer checks this only in its
      duplicate check; the database does not enforce it. */
  ghost predicate OrdersDistinctPerProduct(lines: seq<ProductLine>) {
    forall i, j :: 0 <= i < j < |lines| && lines[i].product == lines[j].product ==>
      lines[i].order != lines[j].order
  }

  // ---------------------------------------------------------------------------------------
  // The active-only query

  /** The records whose own active flag is set, in their original order. */
  function IsActive<T(==,!new)>(records: seq<T>, active: T -> bool): (r: seq<T>)
    ensures forall x :: x in r <==> x in records && active(x)
    ensures forall x :: multiset(r)[x] == if active(x) then multiset(records)[x] else 0
    ensures IsSubsequence(r, records)
  {
    Filter(records, active)
  }

  // ---------------------------------------------------------------------------------------
  // Order assignment and the product line's duplicate check

  /** The (product, order) pairs the order field reads from the stored lines. */
  function Rows(lines: seq<ProductLine>): (rows: seq<OrderField.Row<Id>>)
    ensures |rows| == |lines|
    ensures forall i :: 0 <= i < |lines| ==> rows[i] == OrderField.Row(lines[i].product, lines[i].order)
  {
    seq(|lines|, i requires 0 <= i < |lines| => OrderField.Row(lines[i].product, lines[i].order))
  }

  /** The order a draft line is saved with: its own order when set, otherwise one more than
      the highest order among the lines of the same product, or 1 when it has none. */
  function LineOrder(d: LineDraft, lines: seq<ProductLine>): (order: nat)
    ensures d.order.Some? ==> order == d.order.value
    ensures d.order.None? ==> forall l :: l in lines && l.product == d.product ==> l.order < order
    ensures d.order.None? && (forall l :: l in lines ==> l.product != d.product) ==> order == 1
    ensures d.order.None? && (exists l :: l in lines && l.product == d.product) ==>
      exists l :: l in lines && l.product == d.product && l.order + 1 == order
  {
    var rows := Rows(lines);
    var order := OrderField.PreSave(d.order, Some(d.product), rows);
    assert forall l :: l in lines ==> exists i :: 0 <= i < |lines| && lines[i] == l && rows[i].scope == l.product;
    order
  }

  /** Whether some line of `qs` other than the one being validated repeats its order or sku. */
  function FindDuplicate(selfId: Option<Id>, d: LineDraft, qs: seq<ProductLine>): (found: bool)
    ensures found <==> exists i :: (0 <= i < |qs| && Some(qs[i].id) != selfId &&
                                    (Some(qs[i].order) == d.order || qs[i].sku == d.sku))
  {
    if |qs| == 0 then false
    else
      var rest := FindDuplicate(selfId, d, qs[1..]);
      assert forall i :: 0 < i < |qs| ==> qs[i] == qs[1..][i - 1];
      (Some(qs[0].id) != selfId && (Some(qs[0].order) == d.order || qs[0].sku == d.sku)) || rest
  }

  /** The product line's field validation: it fails when another stored line of the same
      product (a line with a different id; a line not yet saved has none) has the same order
      or the same sku. */
  function CleanFields(selfId: Option<Id>, d: LineDraft, lines: seq<ProductLine>): (r: Outcome<Error>)
    ensures r.Fail? <==> exists l :: (l in lines && l.product == d.product && Some(l.id) != selfId &&
                                      (Some(l.order) == d.order || l.sku == d.sku))
    ensures r.Fail? ==> r.error == DuplicateValue
  {
    var qs := Filter(lines, (l: ProductLine) => l.product == d.product);
    assert forall l :: l in qs <==> l in lines && l.product == d.product;
    assert FindDuplicate(selfId, d, qs) <==>
      exists l :: l in qs && Some(l.id) != selfId && (Some(l.order) == d.order || l.sku == d.sku);
    if FindDuplicate(selfId, d, qs) then Fail(DuplicateValue) else Pass
  }

  // ---------------------------------------------------------------------------------------
  // Inserts: the database's unique and foreign-key constraints

  function InsertCategory(s: Store, c: Category): (r: Result<Store, Error>)
    ensures r.Ok? <==>
      && (forall x :: x in s.categories ==> x.id != c.id && x.name != c.name)
      && (c.parent.Some? ==> HasCategory(s, c.parent.value))
    ensures r.Ok? ==> r.value == s.(categories := s.categories + [c])
    ensures r == Err(UniqueViolation(CategoryName)) ==> exists x :: x in s.categories && x.name == c.name
  {
    if exists x :: x in s.categories && x.id == c.id then Err(UniqueViolation(PrimaryKey))
    else if exists x :: x in s.categories && x.name == c.name then Err(UniqueViolation(CategoryName))
    else if c.parent.Some? && !HasCategory(s, c.parent.value) then Err(MissingReference)
    else Ok(s.(categories := s.categories + [c]))
  }

  function InsertBrand(s: Store, b: Brand): (r: Result<Store, Error>)
    ensures r.Ok? <==> forall x :: x in s.brands ==> x.id != b.id && x.name != b.name
    ensures r.Ok? ==> r.value == s.(brands := s.brands + [b])
    ensures r == Err(UniqueViolation(BrandName)) ==> exists x :: x in s.brands && x.name == b.name
  {
    if exists x :: x in s.brands && x.id == b.id then Err(UniqueViolation(PrimaryKey))
    else if exists x :: x in s.brands && x.name == b.name then Err(UniqueViolation(BrandName))
    else Ok(s.(brands := s.brands + [b]))
  }

  function InsertProduct(s: Store, p: Product): (r: Result<Store, Error>)
    ensures r.Ok? <==>
      && (forall x :: x in s.products ==> x.id != p.id && x.slug != p.slug)
      && HasBrand(s, p.brand)
      && (p.category.Some? ==> HasCategory(s, p.category.value))
    ensures r.Ok? ==> r.value == s.(products := s.products + [p])
    ensures r == Err(UniqueViolation(ProductSlug)) ==> exists x :: x in s.products && x.slug == p.slug
  {
    if exists x :: x in s.products && x.id == p.id then Err(UniqueViolation(PrimaryKey))
    else if exists x :: x in s.products && x.slug == p.slug then Err(UniqueViolation(ProductSlug))
    else if !HasBrand(s, p.brand) then Err(MissingReference)
    else if p.category.Some? && !HasCategory(s, p.category.value) then Err(MissingReference)
    else Ok(s.(products := s.products + [p]))
  }

  /** Saves a draft line under primary key `id`: the order field fills in an unset order, then
      the database checks the primary key, the sku and the product reference. The duplicate
      check `CleanFields` is not part of saving. */
  function InsertLine(s: Store, id: Id, d: LineDraft): (r: Result<Store, Error>)
    ensures r.Ok? <==>
      && (forall x :: x in s.lines ==> x.id != id && x.sku != d.sku)
      && HasProduct(s, d.product)
    ensures r.Ok? ==> r.value.categories == s.categories && r.value.brands == s.brands
    ensures r.Ok? ==> r.value.products == s.products
    ensures r.Ok? ==> |r.value.lines| == |s.lines| + 1 && r.value.lines[..|s.lines|] == s.lines
    ensures r.Ok? ==>
      var l := r.value.lines[|s.lines|];
      && l.id == id && l.sku == d.sku && l.price == d.price && l.stockQty == d.stockQty
      && l.isActive == d.isActive && l.product == d.product
      && l.order == LineOrder(d, s.lines)
    ensures r == Err(UniqueViolation(LineSku)) ==> exists x :: x in s.lines && x.sku == d.sku
  {
    var order := LineOrder(d, s.lines);
    var l := ProductLine(id, d.price, d.sku, d.stockQty, d.isActive, d.product, order);
    if exists x :: x in s.lines && x.id == id then Err(UniqueViolation(PrimaryKey))
    else if exists x :: x in s.lines && x.sku == d.sku then Err(UniqueViolation(LineSku))
    else if !HasProduct(s, d.product) then Err(MissingReference)
    else
      assert (s.lines + [l])[..|s.lines|] == s.lines;
      Ok(s.(lines := s.lines + [l]))
  }

  // ---------------------------------------------------------------------------------------
  // Deletes: the on_delete policy of each reference

  /** Deleting a product cascades to its lines. */
  function DeleteProduct(s: Store, pid: Id): (r: Store)
    ensures r.categories == s.categories && r.brands == s.brands
    ensures forall p :: p in r.products <==> p in s.products && p.id != pid
    ensures forall l :: l in r.lines <==> l in s.lines && l.product != pid
    ensures IsSubsequence(r.products, s.products) && IsSubsequence(r.lines, s.lines)
  {
    s.(products := Filter(s.products, (p: Product) => p.id != pid),
       lines := Filter(s.lines, (l: ProductLine) => l.product != pid))
  }

  /** The ids of the products of brand `bid`. */
  function ProductsOfBrand(s: Store, bid: Id): (ids: set<Id>)
    ensures forall id :: id in ids <==> exists p :: p in s.products && p.brand == bid && p.id == id
  {
    set p | p in s.products && p.brand == bid :: p.id
  }

  /** Deleting a brand cascades to its products and, through them, to their lines. */
  function DeleteBrand(s: Store, bid: Id): (r: Store)
    ensures r.categories == s.categories
    ensures forall b :: b in r.brands <==> b in s.brands && b.id != bid
    ensures forall p :: p in r.products <==> p in s.products && p.brand != bid
    ensures forall l :: l in r.lines <==>
      l in s.lines && !(exists p :: p in s.products && p.brand == bid && p.id == l.product)
    ensures IsSubsequence(r.brands, s.brands)
    ensures IsSubsequence(r.products, s.products) && IsSubsequence(r.lines, s.lines)
  {
    var doomed := ProductsOfBrand(s, bid);
    s.(brands := Filter(s.brands, (b: Brand) => b.id != bid),
       products := Filter(s.products, (p: Product) => p.brand != bid),
       lines := Filter(s.lines, (l: ProductLine) => l.product !in doomed))
  }

  /** A product no longer pointing at category `cid`. */
  function Unlink(p: Product, cid: Id): Product {
    if p.category == Some(cid) then p.(category := None) else p
  }

  /** Deleting a category is refused while another category names it as parent; otherwise
      the category goes and the products filed under it lose their category. */
  function DeleteCategory(s: Store, cid: Id): (r: Result<Store, Error>)
    ensures r.Err? <==> exists c :: c in s.categories && c.parent == Some(cid)
    ensures r.Err? ==> r.error == Protected
    ensures r.Ok? ==> r.value.brands == s.brands && r.value.lines == s.lines
    ensures r.Ok? ==> forall c :: c in r.value.categories <==> c in s.categories && c.id != cid
    ensures r.Ok? ==> IsSubsequence(r.value.categories, s.categories)
    ensures r.Ok? ==> |r.value.products| == |s.products|
    ensures r.Ok? ==> forall i :: 0 <= i < |s.products| ==>
      && r.value.products[i].(category := s.products[i].category) == s.products[i]
      && r.value.products[i].category != Some(cid)
      && (s.products[i].category == Some(cid) ==> r.value.products[i].category == None)
      && (s.products[i].category != Some(cid) ==> r.value.products[i] == s.products[i])
  {
    if exists c :: c in s.categories && c.parent == Some(cid) then Err(Protected)
    else
      Ok(s.(categories := Filter(s.categories, (c: Category) => c.id != cid),
            products := seq(|s.products|, i requires 0 <= i < |s.products| => Unlink(s.products[i], cid))))
  }

  // ---------------------------------------------------------------------------------------
  // The category tree's read order

  /** The categories whose parent is `parent` (the roots for `None`), ordered by name. */
  function Children(s: Store, parent: Option<Id>): (r: seq<Category>)
    ensures SortedBy(r, CategoryNameOf)
    ensures forall c :: c in r <==> c in s.categories && c.parent == parent
    ensures forall c :: multiset(r)[c] == if c.parent == parent then multiset(s.categories)[c] else 0
  {
    var siblings := Filter(s.categories, (c: Category) => c.parent == parent);
    var r := SortBy(siblings, CategoryNameOf);
    assert forall c :: c in r <==> c in multiset(r);
    r
  }
}
