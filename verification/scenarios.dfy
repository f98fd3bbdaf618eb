/** Worked examples of the catalog rules on small stores. */
module CatalogScenarios {
  import opened Wrappers
  import opened Catalog

  const Empty := Store([], [], [], [])
  const Acme := Brand(1, "Brand_0", true)
  const Boot := Product(1, "Product_0", "Product_0", "Description_0", false, 1, true, None)

  function Draft(sku: string, order: Option<nat>): LineDraft {
    LineDraft(1000, sku, 5, true, 1, order)
  }

  /** A store holding one brand and one product of that brand, and no lines. */
  function Shelf(): (s: Store)
    ensures s.brands == [Acme] && s.products == [Boot] && s.lines == [] && s.categories == []
  {
    var withBrand := InsertBrand(Empty, Acme);
    assert withBrand.Ok?;
    var withProduct := InsertProduct(withBrand.value, Boot);
    assert Acme in withBrand.value.brands;
    assert withProduct.Ok?;
    withProduct.value
  }

  /** Two lines saved without an order into a product with no lines receive 1 and then 2. */
  lemma OrdersAssignedInSequence()
    ensures InsertLine(Shelf(), 1, Draft("SKU_0", None)).Ok?
    ensures var s1 := InsertLine(Shelf(), 1, Draft("SKU_0", None)).value;
      && s1.lines[0].order == 1
      && InsertLine(s1, 2, Draft("SKU_1", None)).Ok?
      && InsertLine(s1, 2, Draft("SKU_1", None)).value.lines[1].order == 2
  {
    var s0 := Shelf();
    assert Boot in s0.products;
    var s1 := InsertLine(s0, 1, Draft("SKU_0", None)).value;
    assert s1.lines[0].sku == "SKU_0";
    assert "SKU_0" != "SKU_1";
  }

  /** A second line of the same product with an order already in use fails the duplicate
      check, while the same line with a fresh order passes. */
  lemma DuplicateOrderRejected()
    ensures InsertLine(Shelf(), 1, Draft("SKU_0", Some(1))).Ok?
    ensures var s1 := InsertLine(Shelf(), 1, Draft("SKU_0", Some(1))).value;
      && CleanFields(None, Draft("SKU_1", Some(1)), s1.lines) == Fail(DuplicateValue)
      && CleanFields(None, Draft("SKU_1", Some(2)), s1.lines) == Pass
  {
    var s0 := Shelf();
    assert Boot in s0.products;
    var s1 := InsertLine(s0, 1, Draft("SKU_0", Some(1))).value;
    assert s1.lines[0] in s1.lines;
    assert "SKU_0" != "SKU_1";
  }

  const Shoes := Category(1, "Shoes", None, true)
  const Sneakers := Category(2, "Sneakers", Some(1), false)
  const Tree := Store([Shoes, Sneakers], [], [], [])

  /** The active filter ignores the tree: the inactive child stays listed under its active
      parent, and the parent cannot be deleted while the child names it. */
  lemma ActivityIndependentOfTree()
    ensures IsActive(Tree.categories, (c: Category) => c.isActive) == [Shoes]
    ensures Children(Tree, Some(1)) == [Sneakers]
    ensures DeleteCategory(Tree, 1) == Err(Protected)
  {
    var active := IsActive(Tree.categories, (c: Category) => c.isActive);
    assert Sneakers !in active;
    assert Shoes in active;
    assert multiset(active)[Shoes] == 1;
    var kids := Children(Tree, Some(1));
    assert Shoes !in kids;
    assert multiset(kids)[Sneakers] == 1;
    assert Sneakers in Tree.categories;
  }
}
