/**
 The `product_tag` join table: one row per (product, tag) association, and the
 queries the product handlers run against it.
 */
module ProductTag {

  /** One row of the join table. `id` is the table's primary key. */
  datatype Row = Row(id: int, productId: int, tagId: int)

  /** A join row built by a handler before the store has assigned it an id. */
  datatype NewRow = NewRow(productId: int, tagId: int)

  /** The tag ids of `rows`, in row order. */
  function TagIds(rows: seq<Row>): seq<int>
  {
    seq(|rows|, i requires 0 <= i < |rows| => rows[i].tagId)
  }

  /** The set of tags that `rows` associate with product `productId`. */
  function TagSetOf(rows: seq<Row>, productId: int): set<int>
  {
    set r | r in rows && r.productId == productId :: r.tagId
  }

  /** No two rows share an id: the primary key the store maintains. */
  predicate UniqueIds(rows: seq<Row>)
  {
    forall i, j :: 0 <= i < j < |rows| ==> rows[i].id != rows[j].id
  }

  /** How many rows associate product `productId` with tag `x`. */
  function TagCount(rows: seq<Row>, productId: int, x: int): nat
  {
    if rows == [] then 0
    else (if rows[0].productId == productId && rows[0].tagId == x then 1 else 0)
         + TagCount(rows[1..], productId, x)
  }

  /** The product's tags each occur on at most one of its rows. */
  ghost predicate DistinctTags(rows: seq<Row>, productId: int)
  {
    forall x :: TagCount(rows, productId, x) <= 1
  }

  /**
   The rows a `findAll` filtered on `product_id` returns. The store promises no
   order; the model lists them in table order, and nothing downstream depends on it.
   */
  function RowsOf(rows: seq<Row>, productId: int): (found: seq<Row>)
    ensures forall r :: r in found <==> r in rows && r.productId == productId
    ensures |found| <= |rows|
  {
    if rows == [] then []
    else (if rows[0].productId == productId then [rows[0]] else []) + RowsOf(rows[1..], productId)
  }

  /** Filtering on a product distributes over concatenation: the model's `findAll` keeps table order. */
  lemma {:induction false} RowsOfConcat(a: seq<Row>, b: seq<Row>, productId: int)
    ensures RowsOf(a + b, productId) == RowsOf(a, productId) + RowsOf(b, productId)
  {
    if a == [] {
      assert a + b == b;
    } else {
      assert (a + b)[0] == a[0];
      assert (a + b)[1..] == a[1..] + b;
      RowsOfConcat(a[1..], b, productId);
    }
  }

  lemma TagIdsConcat(a: seq<Row>, b: seq<Row>)
    ensures TagIds(a + b) == TagIds(a) + TagIds(b)
  {
  }

  /** Under a unique primary key, a row is determined by its id. */
  lemma SameIdSameRow(rows: seq<Row>, a: Row, b: Row)
    requires UniqueIds(rows)
    requires a in rows && b in rows
    ensures a.id == b.id ==> a == b
  {
    var i :| 0 <= i < |rows| && rows[i] == a;
    var j :| 0 <= j < |rows| && rows[j] == b;
  }

  /** Rows with ids distinct from one another on both sides concatenate without clashes. */
  lemma UniqueIdsConcat(a: seq<Row>, b: seq<Row>)
    requires UniqueIds(a) && UniqueIds(b)
    requires forall x, y :: x in a && y in b ==> x.id != y.id
    ensures UniqueIds(a + b)
  {
    var c := a + b;
    forall i, j | 0 <= i < j < |c|
      ensures c[i].id != c[j].id
    {
      if j < |a| {
        assert c[i] == a[i] && c[j] == a[j];
      } else if i >= |a| {
        assert c[i] == b[i - |a|] && c[j] == b[j - |a|];
      } else {
        assert c[i] == a[i] && c[j] == b[j - |a|];
        assert c[i] in a && c[j] in b;
      }
    }
  }

  /** Every row already belongs to the product, so filtering on it keeps them all. */
  lemma {:induction false} RowsOfAll(rows: seq<Row>, productId: int)
    requires forall r :: r in rows ==> r.productId == productId
    ensures RowsOf(rows, productId) == rows
  {
    if rows != [] {
      assert rows[0] in rows;
      assert forall r :: r in rows[1..] ==> r in rows;
      RowsOfAll(rows[1..], productId);
    }
  }

  /** The tag ids of the product's rows are exactly its tag set. */
  lemma TagIdsOfRowsOf(rows: seq<Row>, productId: int)
    ensures forall x :: x in TagIds(RowsOf(rows, productId)) <==> x in TagSetOf(rows, productId)
  {
    var found := RowsOf(rows, productId);
    forall x | x in TagSetOf(rows, productId) ensures x in TagIds(found) {
      var r :| r in rows && r.productId == productId && r.tagId == x;
      var k :| 0 <= k < |found| && found[k] == r;
      assert TagIds(found)[k] == x;
    }
  }

  lemma {:induction false} TagCountConcat(a: seq<Row>, b: seq<Row>, productId: int, x: int)
    ensures TagCount(a + b, productId, x) == TagCount(a, productId, x) + TagCount(b, productId, x)
  {
    if a == [] {
      assert a + b == b;
    } else {
      assert (a + b)[0] == a[0];
      assert (a + b)[1..] == a[1..] + b;
      TagCountConcat(a[1..], b, productId, x);
    }
  }

  /** A tag is counted for a product exactly when some row associates the two. */
  lemma {:induction false} TagCountPositive(rows: seq<Row>, productId: int, x: int)
    ensures TagCount(rows, productId, x) > 0 <==> x in TagSetOf(rows, productId)
  {
    if rows != [] {
      TagCountPositive(rows[1..], productId, x);
      assert rows == [rows[0]] + rows[1..];
      assert forall r :: r in rows <==> r == rows[0] || r in rows[1..];
    }
  }
}
