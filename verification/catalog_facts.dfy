/** Properties of the catalog model: every store operation keeps the database's guarantees,
    the active-only query is exact, and the duplicate check and the order field agree with
    the per-product order invariant. */
module CatalogFacts {
  import opened Wrappers
  import opened Sequences
  import opened Lexicographic
  import opened Catalog

  // ---------------------------------------------------------------------------------------
  // The active-only query

  /** The query returns exactly the active records in their original order: any subsequence
      of the input that holds only active records, each as often as the input, is its result. */
  lemma IsActiveExact<T(!new)>(records: seq<T>, active: T -> bool, candidate: seq<T>)
    requires IsSubsequence(candidate, records)
    requires forall x :: x in candidate ==> active(x)
    requires forall x :: active(x) ==> multiset(candidate)[x] == multiset(records)[x]
    ensures candidate == IsActive(records, active)
  {
    FilterCharacterized(candidate, records, active);
  }

  /** Applying the query to its own result changes nothing. */
  lemma IsActiveIdempotent<T(!new)>(records: seq<T>, active: T -> bool)
    ensures IsActive(IsActive(records, active), active) == IsActive(records, active)
  {
    FilterIdempotent(records, active);
  }

  // ---------------------------------------------------------------------------------------
  // Inserts keep the database's guarantees

  lemma InsertCategoryKeepsValid(s: Store, c: Category)
    requires Valid(s)
    requires InsertCategory(s, c).Ok?
    ensures Valid(InsertCategory(s, c).value)
  {
    var t := InsertCategory(s, c).value;
    AppendKeepsUnique(s.categories, c, CategoryIdOf);
    AppendKeepsUnique(s.categories, c, CategoryNameOf);
    assert forall id :: HasCategory(s, id) ==> HasCategory(t, id);
    assert c in t.categories;
  }

  lemma InsertBrandKeepsValid(s: Store, b: Brand)
    requires Valid(s)
    requires InsertBrand(s, b).Ok?
    ensures Valid(InsertBrand(s, b).value)
  {
    var t := InsertBrand(s, b).value;
    AppendKeepsUnique(s.brands, b, BrandIdOf);
    AppendKeepsUnique(s.brands, b, BrandNameOf);
    assert forall id :: HasBrand(s, id) ==> HasBrand(t, id);
  }

  lemma InsertProductKeepsValid(s: Store, p: Product)
    requires Valid(s)
    requires InsertProduct(s, p).Ok?
    ensures Valid(InsertProduct(s, p).value)
  {
    var t := InsertProduct(s, p).value;
    AppendKeepsUnique(s.products, p, ProductIdOf);
    AppendKeepsUnique(s.products, p, ProductSlugOf);
    assert forall id :: HasProduct(s, id) ==> HasProduct(t, id);
  }

  lemma InsertLineKeepsValid(s: Store, id: Id, d: LineDraft)
    requires Valid(s)
    requires InsertLine(s, id, d).Ok?
    ensures Valid(InsertLine(s, id, d).value)
  {
    var t := InsertLine(s, id, d).value;
    var l := t.lines[|s.lines|];
    assert t.lines == s.lines + [l];
    AppendKeepsUnique(s.lines, l, LineIdOf);
    AppendKeepsUnique(s.lines, l, LineSkuOf);
  }

  // ---------------------------------------------------------------------------------------
  // Deletes keep the database's guarantees

  lemma DeleteProductKeepsValid(s: Store, pid: Id)
    requires Valid(s)
    ensures Valid(DeleteProduct(s, pid))
  {
    var t := DeleteProduct(s, pid);
    SubsequenceKeepsUnique(t.products, s.products, ProductIdOf);
    SubsequenceKeepsUnique(t.products, s.products, ProductSlugOf);
    SubsequenceKeepsUnique(t.lines, s.lines, LineIdOf);
    SubsequenceKeepsUnique(t.lines, s.lines, LineSkuOf);
    assert KeysUnique(t);
    DeleteProductKeepsReferences(s, pid);
  }

  lemma DeleteProductKeepsReferences(s: Store, pid: Id)
    requires ReferencesResolve(s)
    ensures ReferencesResolve(DeleteProduct(s, pid))
  {
    var t := DeleteProduct(s, pid);
    forall p | p in t.products ensures HasBrand(t, p.brand) {
      assert p in s.products;
    }
    forall l | l in t.lines ensures HasProduct(t, l.product) {
      assert l in s.lines;
      var p :| p in s.products && p.id == l.product;
      assert p in t.products;
    }
  }

  lemma DeleteBrandKeepsValid(s: Store, bid: Id)
    requires Valid(s)
    ensures Valid(DeleteBrand(s, bid))
  {
    var t := DeleteBrand(s, bid);
    SubsequenceKeepsUnique(t.brands, s.brands, BrandIdOf);
    SubsequenceKeepsUnique(t.brands, s.brands, BrandNameOf);
    SubsequenceKeepsUnique(t.products, s.products, ProductIdOf);
    SubsequenceKeepsUnique(t.products, s.products, ProductSlugOf);
    SubsequenceKeepsUnique(t.lines, s.lines, LineIdOf);
    SubsequenceKeepsUnique(t.lines, s.lines, LineSkuOf);
    assert KeysUnique(t);
    DeleteBrandKeepsReferences(s, bid);
  }

  lemma DeleteBrandKeepsReferences(s: Store, bid: Id)
    requires ReferencesResolve(s)
    ensures ReferencesResolve(DeleteBrand(s, bid))
  {
    var t := DeleteBrand(s, bid);
    forall p | p in t.products ensures HasBrand(t, p.brand) {
      assert p in s.products;
      var b :| b in s.brands && b.id == p.brand;
      assert b in t.brands;
    }
    forall l | l in t.lines ensures HasProduct(t, l.product) {
      assert l in s.lines;
      var p :| p in s.products && p.id == l.product;
      assert p in t.products;
    }
  }

  lemma DeleteCategoryKeepsValid(s: Store, cid: Id)
    requires Valid(s)
    requires DeleteCategory(s, cid).Ok?
    ensures Valid(DeleteCategory(s, cid).value)
  {
    var t := DeleteCategory(s, cid).value;
    SubsequenceKeepsUnique(t.categories, s.categories, CategoryIdOf);
    SubsequenceKeepsUnique(t.categories, s.categories, CategoryNameOf);
    UnlinkKeepsProductKeys(s, cid);
    assert KeysUnique(t);
    DeleteCategoryKeepsReferences(s, cid);
  }

  lemma UnlinkKeepsProductKeys(s: Store, cid: Id)
    requires UniqueBy(s.products, ProductIdOf) && UniqueBy(s.products, ProductSlugOf)
    requires DeleteCategory(s, cid).Ok?
    ensures UniqueBy(DeleteCategory(s, cid).value.products, ProductIdOf)
    ensures UniqueBy(DeleteCategory(s, cid).value.products, ProductSlugOf)
  {
    var ps := DeleteCategory(s, cid).value.products;
    assert forall i :: 0 <= i < |s.products| ==> ps[i].id == s.products[i].id && ps[i].slug == s.products[i].slug;
  }

  lemma DeleteCategoryKeepsReferences(s: Store, cid: Id)
    requires ReferencesResolve(s)
    requires DeleteCategory(s, cid).Ok?
    ensures ReferencesResolve(DeleteCategory(s, cid).value)
  {
    var t := DeleteCategory(s, cid).value;
    forall c | c in t.categories && c.parent.Some? ensures HasCategory(t, c.parent.value) {
      assert c in s.categories;
      var q :| q in s.categories && q.id == c.parent.value;
      assert q in t.categories;
    }
    forall p | p in t.products ensures HasBrand(t, p.brand) {
      var i :| 0 <= i < |t.products| && t.products[i] == p;
      assert s.products[i] in s.products;
    }
    forall p | p in t.products && p.category.Some? ensures HasCategory(t, p.category.value) {
      var i :| 0 <= i < |t.products| && t.products[i] == p;
      assert s.products[i] in s.products;
      var q :| q in s.categories && q.id == p.category.value;
      assert q in t.categories;
    }
    forall l | l in t.lines ensures HasProduct(t, l.product) {
      var p :| p in s.products && p.id == l.product;
      var i :| 0 <= i < |s.products| && s.products[i] == p;
      assert t.products[i] in t.products;
    }
  }

  // ---------------------------------------------------------------------------------------
  // The duplicate check and the per-product order invariant

  /** The draft a stored line is re-validated as. */
  function DraftOf(l: ProductLine): LineDraft {
    LineDraft(l.price, l.sku, l.stockQty, l.isActive, l.product, Some(l.order))
  }

  /** Re-validating a stored line with unchanged values passes. */
  lemma RevalidationPasses(s: Store, l: ProductLine)
    requires Valid(s) && OrdersDistinctPerProduct(s.lines)
    requires l in s.lines
    ensures CleanFields(Some(l.id), DraftOf(l), s.lines) == Pass
  {
    var i :| 0 <= i < |s.lines| && s.lines[i] == l;
    forall x | x in s.lines && x.product == l.product && x.id != l.id
      ensures x.order != l.order && x.sku != l.sku
    {
      var j :| 0 <= j < |s.lines| && s.lines[j] == x;
      assert LineIdOf(s.lines[i]) != LineIdOf(s.lines[j]);
      assert LineSkuOf(s.lines[i]) != LineSkuOf(s.lines[j]);
      if i < j {
        assert s.lines[i].order != s.lines[j].order;
      } else {
        assert s.lines[j].order != s.lines[i].order;
      }
    }
  }

  /** Lines of other products never decide the duplicate check, wherever they are stored. */
  lemma OtherProductsIgnored(selfId: Option<Id>, d: LineDraft, before: seq<ProductLine>,
                             foreign: seq<ProductLine>, after: seq<ProductLine>)
    requires forall l :: l in foreign ==> l.product != d.product
    ensures CleanFields(selfId, d, before + foreign + after) == CleanFields(selfId, d, before + after)
  {
  }

  /** Saving a line keeps the orders of each product distinct when the order is filled in by
      the order field, or when an explicit order has passed the duplicate check. */
  lemma InsertLineKeepsOrdersDistinct(s: Store, id: Id, d: LineDraft)
    requires OrdersDistinctPerProduct(s.lines)
    requires InsertLine(s, id, d).Ok?
    requires d.order.None? || CleanFields(None, d, s.lines) == Pass
    ensures OrdersDistinctPerProduct(InsertLine(s, id, d).value.lines)
  {
    var t := InsertLine(s, id, d).value;
    var l := t.lines[|s.lines|];
    assert t.lines == s.lines + [l];
    forall i | 0 <= i < |s.lines| && s.lines[i].product == l.product
      ensures s.lines[i].order != l.order
    {
      assert s.lines[i] in s.lines;
    }
  }

  /** Deleting any row keeps the orders of each product distinct. */
  lemma DeletesKeepOrdersDistinct(s: Store, id: Id)
    requires OrdersDistinctPerProduct(s.lines)
    ensures OrdersDistinctPerProduct(DeleteProduct(s, id).lines)
    ensures OrdersDistinctPerProduct(DeleteBrand(s, id).lines)
    ensures DeleteCategory(s, id).Ok? ==> OrdersDistinctPerProduct(DeleteCategory(s, id).value.lines)
  {
    SubsequenceKeepsOrdersDistinct(DeleteProduct(s, id).lines, s.lines);
    SubsequenceKeepsOrdersDistinct(DeleteBrand(s, id).lines, s.lines);
  }

  lemma {:induction false} SubsequenceKeepsOrdersDistinct(ys: seq<ProductLine>, xs: seq<ProductLine>)
    requires IsSubsequence(ys, xs) && OrdersDistinctPerProduct(xs)
    ensures OrdersDistinctPerProduct(ys)
    decreases |xs|
  {
    if |ys| > 0 {
      var tail := xs[1..];
      assert OrdersDistinctPerProduct(tail) by {
        forall i, j | 0 <= i < j < |tail| && tail[i].product == tail[j].product
          ensures tail[i].order != tail[j].order
        {
          assert tail[i] == xs[i + 1] && tail[j] == xs[j + 1];
        }
      }
      if ys[0] == xs[0] && IsSubsequence(ys[1..], tail) {
        SubsequenceKeepsOrdersDistinct(ys[1..], tail);
        SubsequenceMultiset(ys[1..], tail);
        forall j | 0 < j < |ys| && ys[0].product == ys[j].product
          ensures ys[0].order != ys[j].order
        {
          assert ys[j] == ys[1..][j - 1];
          assert ys[j] in multiset(tail);
          var k :| 0 <= k < |tail| && tail[k] == ys[j];
          assert xs[k + 1] == ys[j];
        }
      } else {
        SubsequenceKeepsOrdersDistinct(ys, tail);
      }
    }
  }

  // ---------------------------------------------------------------------------------------
  // The category tree's read order

  /** In a committed store the children of a category, and the roots, are listed in strictly
      ascending name order: names are unique across the whole table. */
  lemma ChildrenStrictlyAscending(s: Store, parent: Option<Id>)
    requires Valid(s)
    ensures forall i, j :: 0 <= i < j < |Children(s, parent)| ==>
      NameLe(Children(s, parent)[i].name, Children(s, parent)[j].name) &&
      Children(s, parent)[i].name != Children(s, parent)[j].name
  {
    var r := Children(s, parent);
    forall c ensures multiset(r)[c] <= 1 {
      UniqueByOccursOnce(s.categories, CategoryIdOf, c);
    }
    forall i, j | 0 <= i < j < |r| ensures r[i].name != r[j].name {
      OccursOnceDistinctPositions(r, i, j);
      DistinctCategoriesDistinctNames(s, r[i], r[j]);
    }
  }

  /** Two different categories of a committed store have different names. */
  lemma DistinctCategoriesDistinctNames(s: Store, a: Category, b: Category)
    requires Valid(s)
    requires a in s.categories && b in s.categories && a != b
    ensures a.name != b.name
  {
    var i :| 0 <= i < |s.categories| && s.categories[i] == a;
    var j :| 0 <= j < |s.categories| && s.categories[j] == b;
    assert CategoryNameOf(s.categories[i]) != CategoryNameOf(s.categories[j]);
  }

  /** The name order fixes the sibling listing completely: in a committed store, any listing
      sorted by name that holds exactly the categories with that parent is `Children`. */
  lemma ChildrenDetermined(s: Store, parent: Option<Id>, listing: seq<Category>)
    requires Valid(s)
    requires SortedBy(listing, CategoryNameOf)
    requires forall c :: multiset(listing)[c] == if c.parent == parent then multiset(s.categories)[c] else 0
    ensures listing == Children(s, parent)
  {
    var r := Children(s, parent);
    assert multiset(r) == multiset(listing);
    forall a, b | a in r && b in r && CategoryNameOf(a) == CategoryNameOf(b) ensures a == b {
      if a != b {
        DistinctCategoriesDistinctNames(s, a, b);
      }
    }
    SortedPermutationUnique(r, listing, CategoryNameOf);
  }

  /** A committed store read back: no two different rows of a table share a primary key or
      a unique column, whatever their parent, product or brand, and every reference names a
      stored row. */
  lemma ValidMeaning(s: Store)
    requires Valid(s)
    ensures forall a, b :: a in s.categories && b in s.categories && a != b ==> a.id != b.id && a.name != b.name
    ensures forall a, b :: a in s.brands && b in s.brands && a != b ==> a.id != b.id && a.name != b.name
    ensures forall a, b :: a in s.products && b in s.products && a != b ==> a.id != b.id && a.slug != b.slug
    ensures forall a, b :: a in s.lines && b in s.lines && a != b ==> a.id != b.id && a.sku != b.sku
    ensures forall l :: l in s.lines ==> exists p :: p in s.products && p.id == l.product
    ensures forall p :: p in s.products ==> exists b :: b in s.brands && b.id == p.brand
  {
    forall a, b | a in s.categories && b in s.categories && a != b ensures a.id != b.id && a.name != b.name {
      var i :| 0 <= i < |s.categories| && s.categories[i] == a;
      var j :| 0 <= j < |s.categories| && s.categories[j] == b;
      assert CategoryIdOf(s.categories[i]) != CategoryIdOf(s.categories[j]);
      assert CategoryNameOf(s.categories[i]) != CategoryNameOf(s.categories[j]);
    }
    forall a, b | a in s.brands && b in s.brands && a != b ensures a.id != b.id && a.name != b.name {
      var i :| 0 <= i < |s.brands| && s.brands[i] == a;
      var j :| 0 <= j < |s.brands| && s.brands[j] == b;
      assert BrandIdOf(s.brands[i]) != BrandIdOf(s.brands[j]);
      assert BrandNameOf(s.brands[i]) != BrandNameOf(s.brands[j]);
    }
    forall a, b | a in s.products && b in s.products && a != b ensures a.id != b.id && a.slug != b.slug {
      var i :| 0 <= i < |s.products| && s.products[i] == a;
      var j :| 0 <= j < |s.products| && s.products[j] == b;
      assert ProductIdOf(s.products[i]) != ProductIdOf(s.products[j]);
      assert ProductSlugOf(s.products[i]) != ProductSlugOf(s.products[j]);
    }
    forall a, b | a in s.lines && b in s.lines && a != b ensures a.id != b.id && a.sku != b.sku {
      var i :| 0 <= i < |s.lines| && s.lines[i] == a;
      var j :| 0 <= j < |s.lines| && s.lines[j] == b;
      assert LineIdOf(s.lines[i]) != LineIdOf(s.lines[j]);
      assert LineSkuOf(s.lines[i]) != LineSkuOf(s.lines[j]);
    }
  }
}
