/**
 * The product table: rows keyed by id, soft-deleted by clearing `isActive`,
 * and the query that lists the active rows in id order.
 */
module Catalog {
  import opened Wrappers
  import opened Uploads

  /** A price as the float parser produced it; floating-point arithmetic is not modelled. */
  type Float = real

  /** One row of the product table. */
  datatype Product = Product(
    name: string,
    description: Option<string>,
    price: Float,
    imageFilename: Option<string>,
    isActive: bool)

  /** A product together with its id, as the listings hand it to the pages. */
  datatype Row = Row(id: nat, product: Product)

  /**
   * The ids in use are exactly 1 through the number of rows: the store
   * hands out ids in sequence and rows are never removed.
   */
  ghost predicate ContiguousIds(products: map<nat, Product>)
  {
    forall id :: id in products <==> 1 <= id <= |products|
  }

  /** The id the next inserted row receives. */
  function NextId(products: map<nat, Product>): (id: nat)
    requires ContiguousIds(products)
    ensures id !in products && id >= 1
  {
    |products| + 1
  }

  /** Whether a row with this id appears in a listing. */
  predicate Listed(rows: seq<Row>, id: nat)
  {
    exists k :: 0 <= k < |rows| && rows[k].id == id
  }

  /** Appending a row lists its id and keeps every id listed before. */
  lemma ListedAppend(rows: seq<Row>, row: Row, id: nat)
    ensures Listed(rows + [row], id) <==> Listed(rows, id) || row.id == id
  {
    if Listed(rows, id) {
      var k :| 0 <= k < |rows| && rows[k].id == id;
      assert (rows + [row])[k].id == id;
    }
    if row.id == id {
      assert (rows + [row])[|rows|].id == id;
    }
    if Listed(rows + [row], id) && row.id != id {
      var k :| 0 <= k < |rows + [row]| && (rows + [row])[k].id == id;
      assert rows[k].id == id;
    }
  }

  /** The active rows among ids 1 through `n`, in ascending id order. */
  function ActiveRows(products: map<nat, Product>, n: nat): seq<Row>
  {
    if n == 0 then []
    else
      var earlier := ActiveRows(products, n - 1);
      if n in products && products[n].isActive then earlier + [Row(n, products[n])] else earlier
  }

  /**
   * What the active-row query returns: every row is an active product under
   * its own id, every active product with an id in range appears, and the
   * ids ascend.
   */
  lemma {:induction false} ActiveRowsSpec(products: map<nat, Product>, n: nat)
    ensures forall k :: 0 <= k < |ActiveRows(products, n)| ==>
      var row := ActiveRows(products, n)[k];
      1 <= row.id <= n && row.id in products && products[row.id] == row.product && row.product.isActive
    ensures forall id :: 1 <= id <= n && id in products && products[id].isActive ==> Listed(ActiveRows(products, n), id)
    ensures forall j, k :: 0 <= j < k < |ActiveRows(products, n)| ==> ActiveRows(products, n)[j].id < ActiveRows(products, n)[k].id
  {
    if n > 0 {
      var earlier := ActiveRows(products, n - 1);
      ActiveRowsSpec(products, n - 1);
      if n in products && products[n].isActive {
        var row := Row(n, products[n]);
        var r := earlier + [row];
        assert ActiveRows(products, n) == r;
        forall k | 0 <= k < |r|
          ensures 1 <= r[k].id <= n && r[k].id in products && products[r[k].id] == r[k].product && r[k].product.isActive
        {
          if k < |earlier| {
            assert r[k] == earlier[k];
          }
        }
        forall id ensures Listed(earlier + [row], id) <==> Listed(earlier, id) || row.id == id {
          ListedAppend(earlier, row, id);
        }
      } else {
        assert ActiveRows(products, n) == earlier;
      }
    }
  }

  /** The listing shown on the products page and on the public menu. */
  function Listing(products: map<nat, Product>): seq<Row>
  {
    ActiveRows(products, |products|)
  }

  /** The number of active products, as the dashboard shows it. */
  function ActiveCount(products: map<nat, Product>): nat
  {
    |Listing(products)|
  }

  /** A product is listed exactly when it exists and is active. */
  lemma ListedIff(products: map<nat, Product>, id: nat)
    requires ContiguousIds(products)
    ensures Listed(Listing(products), id) <==> id in products && products[id].isActive
  {
    ActiveRowsSpec(products, |products|);
  }

  /** Rows with ids above `n` do not affect the listing up to `n`. */
  lemma {:induction false} ActiveRowsIgnoresLaterIds(products: map<nat, Product>, id: nat, p: Product, n: nat)
    requires n < id
    ensures ActiveRows(products[id := p], n) == ActiveRows(products, n)
  {
    if n > 0 {
      ActiveRowsIgnoresLaterIds(products, id, p, n - 1);
    }
  }

  /** Inserting an active product under the next id appends it to the listing. */
  lemma ListingAfterInsert(products: map<nat, Product>, p: Product)
    requires ContiguousIds(products)
    requires p.isActive
    ensures ContiguousIds(products[NextId(products) := p])
    ensures Listing(products[NextId(products) := p]) == Listing(products) + [Row(NextId(products), p)]
  {
    var id := NextId(products);
    var after := products[id := p];
    assert |after| == id;
    ActiveRowsIgnoresLaterIds(products, id, p, id - 1);
  }

  /**
   * Replacing the row `id` changes the count of active rows up to `n` by
   * what the two versions' flags say, and nothing else.
   */
  lemma {:induction false} ActiveRowsCountAfterUpdate(products: map<nat, Product>, id: nat, p: Product, n: nat)
    requires id in products
    ensures |ActiveRows(products[id := p], n)| + (if 1 <= id <= n && products[id].isActive then 1 else 0)
         == |ActiveRows(products, n)| + (if 1 <= id <= n && p.isActive then 1 else 0)
  {
    if n > 0 {
      var after := products[id := p];
      ActiveRowsCountAfterUpdate(products, id, p, n - 1);
      assert |ActiveRows(after, n)| == |ActiveRows(after, n - 1)| + (if n in after && after[n].isActive then 1 else 0);
      assert |ActiveRows(products, n)| == |ActiveRows(products, n - 1)| + (if n in products && products[n].isActive then 1 else 0);
    }
  }

  /**
   * Soft-deleting a product (clearing its flag, keeping every other field)
   * takes it out of the listing, lowers the active count by one when it was
   * active, and keeps it addressable by id.
   */
  lemma ListingAfterDeactivate(products: map<nat, Product>, id: nat)
    requires ContiguousIds(products)
    requires id in products
    ensures var after := products[id := products[id].(isActive := false)];
      && ContiguousIds(after)
      && !Listed(Listing(after), id)
      && id in after && after[id].name == products[id].name
      && ActiveCount(after) == ActiveCount(products) - (if products[id].isActive then 1 else 0)
  {
    var after := products[id := products[id].(isActive := false)];
    assert after.Keys == products.Keys;
    assert |after| == |products|;
    ActiveRowsCountAfterUpdate(products, id, products[id].(isActive := false), |products|);
    ListedIff(after, id);
  }

  /** Replacing a row by one with the same flag keeps the active count. */
  lemma ActiveCountAfterEdit(products: map<nat, Product>, id: nat, p: Product)
    requires ContiguousIds(products)
    requires id in products
    requires p.isActive == products[id].isActive
    ensures ContiguousIds(products[id := p])
    ensures ActiveCount(products[id := p]) == ActiveCount(products)
  {
    var after := products[id := p];
    assert after.Keys == products.Keys;
    assert |after| == |products|;
    ActiveRowsCountAfterUpdate(products, id, p, |products|);
  }

  /** Every image name a product carries is of the image format for that product's id. */
  ghost predicate ImagesNamedByIds(products: map<nat, Product>)
  {
    forall id :: id in products && products[id].imageFilename.Some? ==> NamedFor(products[id].imageFilename.value, id)
  }

  /** Two different products never carry the same image name. */
  lemma DistinctImageNames(products: map<nat, Product>, id1: nat, id2: nat)
    requires ImagesNamedByIds(products)
    requires id1 in products && id2 in products && id1 != id2
    requires products[id1].imageFilename.Some? && products[id2].imageFilename.Some?
    ensures products[id1].imageFilename.value != products[id2].imageFilename.value
  {
    if products[id1].imageFilename.value == products[id2].imageFilename.value {
      NamedForUnique(products[id1].imageFilename.value, id1, id2);
    }
  }
}
