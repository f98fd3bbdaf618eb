# Catalog integrity rules of drfecommerce, in Dafny

This project models the integrity rules of the product catalog of the drfecommerce Django
backend:

- the **order field** (`OrderField`). On save, it fills an unset ordinal with one more than
  the highest order stored under the same value of a declared scope field. A product line's
  scope is its product. The field also carries a configuration check for that scope field.
- the **catalog models** (`Category`, `Brand`, `Product`, `ProductLine`):
  - the active-only query `isactive`;
  - the product line's duplicate check `clean_fields`;
  - the columns declared unique across a whole table;
  - the `on_delete` policy of every reference;
  - the name order of sibling categories.

A store is four immutable sequences of records, one per table. Inserts and deletes are pure
functions from store to store, or to an error.

Modules:

- `Wrappers` (`wrappers.dfy`): `Option`, `Result`, `Outcome`.
- `Sequences` (`sequences.dfy`): order-preserving `Filter`, the subsequence relation,
  per-key uniqueness and the lemmas relating them.
- `Lexicographic` (`lexicographic.dfy`): the order on names (code points compared left to
  right, a prefix first) and an insertion sort by name.
- `OrderField` (`order_field.dfy`): `drfecommerce/product/fields.py`. It is written over
  generic `(scope, order)` rows, as the field itself is generic in its scope field.
- `Catalog` (`catalog.dfy`): `drfecommerce/product/models.py`. It holds the records, the
  store, the database invariant `Valid`, and the operations.
- `CatalogFacts` (`catalog_facts.dfy`): the lemmas. Every operation keeps `Valid`. The query
  result is exactly determined. The duplicate check and the order field keep the orders
  within a product distinct.
- `CatalogScenarios` (`scenarios.dfy`): worked examples on small concrete stores.

Where the repository's tests and the model code disagree, the model follows the code:

- `Product.category` is `SET_NULL`. A category deletion nulls its products and is not
  blocked by them.
- `ProductLine.product` is `CASCADE`. A product deletion removes its lines and is not
  blocked by them.
- `Category` has no slug column.

## Model

| member | source | states |
|---|---|---|
| OrderField.PreSave | drfecommerce/product/fields.py:35-52 | An order the instance already carries is returned unchanged. An unset order becomes 1 when the scope value cannot be read or no stored row has that scope value. Otherwise it is strictly greater than every stored order in the scope and exactly one more than one of them, that is, the maximum plus one. |
| OrderField.Latest | drfecommerce/product/fields.py:46-47 | The latest order of a non-empty scope is one of its orders and no smaller than any of them. |
| OrderField.ScopeOrders | drfecommerce/product/fields.py:38-45 | The filtered orders are exactly the orders of rows whose scope field equals the instance's value. |
| OrderField.OtherScopesIgnored | drfecommerce/product/fields.py:40-45 | Rows of other scopes, inserted anywhere among the stored rows, do not change the assigned order. |
| OrderField.AutoOrderKeepsDistinct | drfecommerce/product/fields.py:46-47 | Adding a row with an assigned order keeps the orders of every scope pairwise distinct. |
| OrderField.NextAfterCount | drfecommerce/product/fields.py:46-49 | A scope numbered 1..m receives m+1 next, and an empty scope receives 1. |
| OrderField.SequentialSavesCountFromOne | drfecommerce/product/fields.py:35-50 | n saves in a row, all with unset orders, into a scope with no rows number that scope 1, 2, ..., n. |
| OrderField.CheckUniqueForField | drfecommerce/product/fields.py:19-33 | The check gives exactly one `MissingUniqueForField` when no scope field is declared. It gives exactly one `UnknownUniqueForField` when the name is not a field of the model. It gives no error exactly when the name is a field. |
| OrderField.Check | drfecommerce/product/fields.py:13-17 | The inherited findings come first and unchanged. They are followed by `MissingUniqueForField` when no scope field is declared, or by `UnknownUniqueForField` when the name is not a field. Nothing follows them exactly when the scope field is a real field. |
| OrderField.ProductLineConfigurationAccepted | drfecommerce/product/models.py:59 | The product line's `unique_for_field="product"` passes the check. A misspelt name would not. |
| Catalog.IsActive | drfecommerce/product/models.py:7-9 | The result holds exactly the records whose own flag is set, each as often as in the input, as a subsequence of the input. |
| CatalogFacts.IsActiveExact | drfecommerce/product/models.py:7-9 | Any subsequence that holds only active records, and each active record as often as the input does, equals the query's result. |
| CatalogFacts.IsActiveIdempotent | drfecommerce/product/models.py:8-9 | Filtering an already filtered result returns it unchanged. |
| Catalog.LineOrder | drfecommerce/product/models.py:59 | A line's explicit order is kept. An unset order becomes 1 when its product has no lines. Otherwise it becomes one more than an existing order of that product and greater than all of them. |
| Catalog.FindDuplicate | drfecommerce/product/models.py:65-67 | The scan finds a match exactly when some line with a different id has the same order or the same sku. |
| Catalog.CleanFields | drfecommerce/product/models.py:62-67 | Validation fails, with `DuplicateValue`, exactly when a stored line exists that has the same product, a different id, and an equal order or an equal sku. |
| CatalogFacts.RevalidationPasses | drfecommerce/product/models.py:62-67 | In a committed store whose product orders are distinct, re-validating a stored line with its own id and values passes. |
| CatalogFacts.OtherProductsIgnored | drfecommerce/product/models.py:64 | Lines of other products, stored anywhere, never change the outcome of the duplicate check. |
| CatalogFacts.InsertLineKeepsOrdersDistinct | drfecommerce/product/models.py:59-67 | Saving a line keeps each product's orders distinct in two cases: when its order was unset, and when its explicit order passed the duplicate check. |
| CatalogFacts.DeletesKeepOrdersDistinct | drfecommerce/product/models.py:56-58 | The three deletions keep each product's orders distinct. |
| CatalogFacts.ValidMeaning | drfecommerce/product/models.py:13-58 | In a committed store, two different rows of one table never share a primary key. They also never share the unique column: `Category.name` (line 13), `Brand.name` (26), `Product.slug` (36) or `ProductLine.sku` (53). This holds across the whole table, whatever the rows' parent, product or brand. Every line names a stored product (56-58), and every product names a stored brand (39). |
| Catalog.InsertCategory | drfecommerce/product/models.py:12-14 | The insert succeeds exactly when the id and the name are new in the whole table, not only among siblings, and the parent, if any, exists. On success only the category table changes, by appending the record. |
| Catalog.InsertBrand | drfecommerce/product/models.py:25-26 | The insert succeeds exactly when the id and the name are new in the table. On success only the brand table changes. |
| Catalog.InsertProduct | drfecommerce/product/models.py:34-43 | The insert succeeds exactly when the id and the slug are new, the brand exists, and the category, if any, exists. On success only the product table changes. |
| Catalog.InsertLine | drfecommerce/product/models.py:51-59 | The save succeeds exactly when the id and the sku are new and the product exists. The other tables are untouched and the stored lines keep their place. The new line carries the draft's values and the order the order field assigns. |
| CatalogFacts.InsertCategoryKeepsValid | drfecommerce/product/models.py:12-14 | A successful category insert keeps all keys unique and all references resolving. |
| CatalogFacts.InsertBrandKeepsValid | drfecommerce/product/models.py:25-26 | A successful brand insert keeps the store valid. |
| CatalogFacts.InsertProductKeepsValid | drfecommerce/product/models.py:34-43 | A successful product insert keeps the store valid. |
| CatalogFacts.InsertLineKeepsValid | drfecommerce/product/models.py:51-59 | A successful line save keeps the store valid. |
| Catalog.DeleteProduct | drfecommerce/product/models.py:56-58 | The product and exactly the lines of that product are removed. Categories and brands are unchanged, and the survivors keep their order. |
| Catalog.DeleteBrand | drfecommerce/product/models.py:39 | The brand, exactly its products, and exactly the lines of those products are removed. Categories are unchanged, and the survivors keep their order. |
| Catalog.DeleteCategory | drfecommerce/product/models.py:14 | Deletion is refused with `Protected` exactly when another category names this one as parent. Otherwise only that category leaves its table. Products under it get a null category (lines 41-43) and nothing else about them changes. Other products, brands and lines are unchanged. |
| CatalogFacts.DeleteProductKeepsValid | drfecommerce/product/models.py:56-58 | A cascade from a product leaves no line pointing at a missing product. |
| CatalogFacts.DeleteBrandKeepsValid | drfecommerce/product/models.py:39 | A cascade from a brand leaves no dangling product or line. |
| CatalogFacts.DeleteCategoryKeepsValid | drfecommerce/product/models.py:41-43 | An allowed category deletion leaves no dangling parent or product category. |
| Catalog.Children | drfecommerce/product/models.py:18-19 | The children of a category, or the roots, are the categories with that parent, each exactly once as stored, sorted by name. |
| CatalogFacts.ChildrenStrictlyAscending | drfecommerce/product/models.py:13-19 | In a valid store the sibling listing is strictly ascending by name, because names are unique across the table. |
| CatalogFacts.ChildrenDetermined | drfecommerce/product/models.py:18-19 | In a committed store the name order fixes the sibling listing. Any listing sorted by name that holds exactly the categories with that parent equals `Children`. |
| Lexicographic.SortedPermutationUnique | drfecommerce/product/models.py:18-19 | Two name-sorted sequences are equal when they hold the same elements equally often and no two different elements share a name. |
| Lexicographic.SortBy | drfecommerce/product/models.py:18-19 | The sort returns a permutation of its input, in non-decreasing name order. |
| CatalogScenarios.OrdersAssignedInSequence | drfecommerce/product/fields.py:35-50 | Two lines saved without an order into a product with no lines receive 1, then 2. |
| CatalogScenarios.DuplicateOrderRejected | drfecommerce/product/models.py:62-67 | A second line of a product with order 1 already in use fails the duplicate check. With a fresh order it passes. |
| CatalogScenarios.ActivityIndependentOfTree | drfecommerce/product/models.py:7-19 | An inactive child is dropped by the active query. It is still listed under its active parent, and it blocks that parent's deletion. |

## Left out

- HTTP viewsets, serializers and admin registration (`views.py`, `serializers.py`,
  `admin.py`). They are framework wiring with no rules of their own.
- Product types, attributes, attribute values, their bindings, and product images. The tests
  and factories use them, but `models.py` does not define them.
- The django-mptt tree bookkeeping: `lft`/`rght`/`level` maintenance, moving nodes, and the
  cycle check on reparenting. It lives in a library that is not part of this model. Only the
  name order of siblings and the PROTECT rule on `parent` are modelled. Renaming and
  reparenting are not modelled.
- Concurrent saves: the race between reading the latest order and writing the new one.
  Saves are modelled as sequential.
- Database-assigned primary keys: an insert takes the new id as a parameter, and a
  collision is reported as a unique violation. The UPDATE path of `save()` is not modelled;
  only inserts are.
- Field validators: `max_length`, the decimal `max_digits`/`decimal_places` of `price`, and
  the per-field part of `super().clean_fields`. `price` is an integer count of hundredths.
- The text of the configuration check's error messages. Only the error kinds are modelled.
- Database collation: names compare by character code point.
- Catalog.CleanFields, Catalog.LineOrder, Catalog.InsertLine: a draft line always has a
  product (`LineDraft.product` is an `Id`, not optional). The source has two outcomes for a
  line without a product, and neither is modelled:
  - Validation: when `product` is excluded from field validation, as inline forms do, reading
    `self.product` at models.py:64 raises `RelatedObjectDoesNotExist` instead of the
    duplicate error.
  - Saving: such a save first gets order 1 from the except branch of the order field, then
    fails on the NOT NULL product column.
  The order field's own unreadable-scope case is modelled, in `OrderField.PreSave`.
- Column widths: orders, ids, `stock_qty` and `price` are unbounded integers. The database's
  integer range is not modelled. On a 32-bit integer column, assigning one more than
  2147483647 makes the insert fail, while in the model it succeeds.
