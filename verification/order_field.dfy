/** The ordinal field of drfecommerce/product/fields.py: a positive-integer column whose unset
    value is filled in, on save, with one more than the highest order already stored under
    the same value of a declared scope field (`unique_for_field`). */
module OrderField {
  import opened Wrappers

  /** The two columns the save hook reads from each stored row: the value of the scope
      field and the order already assigned. */
  datatype Row<K> = Row(scope: K, order: nat)

  /** What the configuration check reports. `Inherited` stands for the findings of the
      integer field's own checks, which this check appends to. */
  datatype CheckError =
    | MissingUniqueForField
    | UnknownUniqueForField
    | Inherited(message: string)

  /** The orders of the rows in scope `k`, in row order. */
  function ScopeOrders<K(==)>(rows: seq<Row<K>>, k: K): (orders: seq<nat>)
    ensures |orders| <= |rows|
    ensures forall o :: o in orders <==> exists i :: 0 <= i < |rows| && rows[i].scope == k && rows[i].order == o
  {
    if |rows| == 0 then []
    else
      var rest := ScopeOrders(rows[1..], k);
      assert forall i :: 0 < i < |rows| ==> rows[i] == rows[1..][i - 1];
      (if rows[0].scope == k then [rows[0].order] else []) + rest
  }

  /** The order of the latest row, that is, the greatest order present. */
  function Latest(orders: seq<nat>): (m: nat)
    requires |orders| > 0
    ensures m in orders
    ensures forall o :: o in orders ==> o <= m
  {
    if |orders| == 1 then orders[0]
    else
      var rest := Latest(orders[1..]);
      assert orders == [orders[0]] + orders[1..];
      if orders[0] >= rest then orders[0] else rest
  }

  /** The value the save hook stores in the order column. `explicit` is the order the
      instance already carries; `scope` is its value of the scope field, `None` when that
      value cannot be read; `rows` are the rows already stored. */
  function PreSave<K(==)>(explicit: Option<nat>, scope: Option<K>, rows: seq<Row<K>>): (order: nat)
    ensures explicit.Some? ==> order == explicit.value
    ensures explicit.None? ==> order >= 1
    ensures explicit.None? && scope.None? ==> order == 1
    ensures explicit.None? && scope.Some? && (forall i :: 0 <= i < |rows| ==> rows[i].scope != scope.value) ==> order == 1
    ensures explicit.None? && scope.Some? ==>
      forall i :: 0 <= i < |rows| && rows[i].scope == scope.value ==> rows[i].order < order
    ensures explicit.None? && scope.Some? && (exists i :: 0 <= i < |rows| && rows[i].scope == scope.value) ==>
      exists i :: 0 <= i < |rows| && rows[i].scope == scope.value && rows[i].order + 1 == order
  {
    match explicit
    case Some(v) => v
    case None =>
      match scope
      case None => 1
      case Some(k) =>
        var orders := ScopeOrders(rows, k);
        assert forall i :: 0 <= i < |rows| && rows[i].scope == k ==> rows[i].order in orders;
        if |orders| == 0 then 1 else Latest(orders) + 1
  }

  /** The scope-field part of the configuration check: one error when no scope field is
      declared, one when the declared name is not a field of the model, none otherwise. */
  function CheckUniqueForField(uniqueForField: Option<string>, fieldNames: seq<string>): (errors: seq<CheckError>)
    ensures |errors| <= 1
    ensures errors == [] <==> uniqueForField.Some? && uniqueForField.value in fieldNames
    ensures uniqueForField.None? ==> errors == [MissingUniqueForField]
    ensures uniqueForField.Some? && uniqueForField.value !in fieldNames ==> errors == [UnknownUniqueForField]
  {
    match uniqueForField
    case None => [MissingUniqueForField]
    case Some(name) => if name in fieldNames then [] else [UnknownUniqueForField]
  }

  /** The field's full check: the inherited findings followed by the scope-field finding. */
  function Check(inherited: seq<CheckError>, uniqueForField: Option<string>, fieldNames: seq<string>): (errors: seq<CheckError>)
    ensures |inherited| <= |errors| <= |inherited| + 1
    ensures errors[..|inherited|] == inherited
    ensures |errors| == |inherited| <==> uniqueForField.Some? && uniqueForField.value in fieldNames
    ensures uniqueForField.None? ==> errors == inherited + [MissingUniqueForField]
    ensures uniqueForField.Some? && uniqueForField.value !in fieldNames ==>
      errors == inherited + [UnknownUniqueForField]
    ensures uniqueForField.Some? && uniqueForField.value in fieldNames ==> errors == inherited
  {
    inherited + CheckUniqueForField(uniqueForField, fieldNames)
  }

  /** The field names of the product line model, the only model declaring an order field. */
  const ProductLineFieldNames: seq<string> :=
    ["id", "price", "sku", "stock_qty", "is_active", "product", "order"]

  /** The product line's declaration, scoped by "product", passes the scope-field check. */
  lemma ProductLineConfigurationAccepted()
    ensures CheckUniqueForField(Some("product"), ProductLineFieldNames) == []
    ensures CheckUniqueForField(Some("products"), ProductLineFieldNames) == [UnknownUniqueForField]
  {
    assert ProductLineFieldNames[5] == "product";
    assert "products" != "id" && "products" != "price" && "products" != "sku";
  }

  /** No two rows of scope `k` share an order. */
  ghost predicate DistinctInScope<K>(rows: seq<Row<K>>, k: K) {
    forall i, j :: 0 <= i < j < |rows| && rows[i].scope == k && rows[j].scope == k ==>
      rows[i].order != rows[j].order
  }

  /** Saving a row of scope `k` with an unset order keeps the orders of every scope distinct. */
  lemma AutoOrderKeepsDistinct<K>(rows: seq<Row<K>>, k: K, other: K)
    requires DistinctInScope(rows, other)
    ensures DistinctInScope(rows + [Row(k, PreSave(None, Some(k), rows))], other)
  {
    var next := rows + [Row(k, PreSave(None, Some(k), rows))];
    forall i, j | 0 <= i < j < |next| && next[i].scope == other && next[j].scope == other
      ensures next[i].order != next[j].order
    {
      assert next[i] == rows[i];
      if j < |rows| {
        assert next[j] == rows[j];
      }
    }
  }

  lemma {:induction false} ScopeOrdersAppend<K>(a: seq<Row<K>>, b: seq<Row<K>>, k: K)
    ensures ScopeOrders(a + b, k) == ScopeOrders(a, k) + ScopeOrders(b, k)
    decreases |a|
  {
    if |a| > 0 {
      assert (a + b)[1..] == a[1..] + b;
      ScopeOrdersAppend(a[1..], b, k);
    } else {
      assert a + b == b;
    }
  }

  lemma {:induction false} ScopeOrdersForeign<K>(rows: seq<Row<K>>, k: K)
    requires forall i :: 0 <= i < |rows| ==> rows[i].scope != k
    ensures ScopeOrders(rows, k) == []
  {
    if |rows| > 0 {
      assert forall i :: 0 <= i < |rows[1..]| ==> rows[1..][i] == rows[i + 1];
      ScopeOrdersForeign(rows[1..], k);
    }
  }

  /** Rows of other scopes, wherever they are stored, have no effect on the assigned order. */
  lemma OtherScopesIgnored<K>(before: seq<Row<K>>, foreign: seq<Row<K>>, after: seq<Row<K>>, k: K)
    requires forall i :: 0 <= i < |foreign| ==> foreign[i].scope != k
    ensures PreSave(None, Some(k), before + foreign + after) == PreSave(None, Some(k), before + after)
  {
    ScopeOrdersAppend(before + foreign, after, k);
    ScopeOrdersAppend(before, foreign, k);
    ScopeOrdersAppend(before, after, k);
    ScopeOrdersForeign(foreign, k);
    assert ScopeOrders(before + foreign + after, k) == ScopeOrders(before + after, k);
    PreSaveFollowsScopeOrders(before + foreign + after, before + after, k);
  }

  lemma PreSaveFollowsScopeOrders<K>(a: seq<Row<K>>, b: seq<Row<K>>, k: K)
    requires ScopeOrders(a, k) == ScopeOrders(b, k)
    ensures PreSave(None, Some(k), a) == PreSave(None, Some(k), b)
  {
  }

  /** The rows after `n` saves, one after another, of rows of scope `k` with unset orders. */
  function SaveUnset<K(==)>(rows: seq<Row<K>>, k: K, n: nat): (after: seq<Row<K>>)
    ensures |after| == |rows| + n
  {
    if n == 0 then rows
    else
      var before := SaveUnset(rows, k, n - 1);
      before + [Row(k, PreSave(None, Some(k), before))]
  }

  /** A scope numbered 1, ..., m receives m + 1 next. */
  lemma NextAfterCount<K>(rows: seq<Row<K>>, k: K, m: nat)
    requires ScopeOrders(rows, k) == seq(m, i => i + 1)
    ensures PreSave(None, Some(k), rows) == m + 1
  {
    if m > 0 {
      LatestOfCount(m);
    }
  }

  lemma LatestOfCount(m: nat)
    requires m > 0
    ensures Latest(seq(m, i => i + 1)) == m
  {
    var orders: seq<nat> := seq(m, i => i + 1);
    assert orders[m - 1] == m;
    forall o | o in orders ensures o <= m {
      var i :| 0 <= i < m && orders[i] == o;
    }
    var top := Latest(orders);
    assert m in orders;
    assert top <= m && m <= top;
  }

  /** One more unset save into a scope numbered 1..m numbers it 1..m+1. */
  lemma SaveOneMore<K>(before: seq<Row<K>>, k: K, m: nat)
    requires ScopeOrders(before, k) == seq(m, i => i + 1)
    ensures ScopeOrders(before + [Row(k, PreSave(None, Some(k), before))], k) == seq(m + 1, i => i + 1)
  {
    var o := PreSave(None, Some(k), before);
    NextAfterCount(before, k, m);
    ScopeOrdersAppend(before, [Row(k, o)], k);
    assert ScopeOrders([Row(k, o)], k) == [m + 1];
    CountExtends(m);
  }

  lemma CountExtends(m: nat)
    ensures seq(m, i => i + 1) + [m + 1] == seq(m + 1, i => i + 1)
  {
  }

  /** Saving `n` rows with unset orders into a scope that holds no rows numbers them 1, 2, ..., n. */
  lemma {:induction false} SequentialSavesCountFromOne<K>(rows: seq<Row<K>>, k: K, n: nat)
    requires forall i :: 0 <= i < |rows| ==> rows[i].scope != k
    ensures ScopeOrders(SaveUnset(rows, k, n), k) == seq(n, i => i + 1)
  {
    if n == 0 {
      ScopeOrdersForeign(rows, k);
    } else {
      var before := SaveUnset(rows, k, n - 1);
      SequentialSavesCountFromOne(rows, k, n - 1);
      assert SaveUnset(rows, k, n) == before + [Row(k, PreSave(None, Some(k), before))];
      SaveOneMore(before, k, n - 1);
    }
  }
}
