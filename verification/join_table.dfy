/**
 The join table as the product handlers see it through the store: a sequence of
 rows plus the auto-increment counter that numbers inserted rows, with the two
 writes the handlers issue (`destroy` by id and `bulkCreate`).
 */
module JoinTable {
  import opened ProductTag

  /** The rows of `product_tag` and the id the store will assign to the next inserted row. */
  datatype Table = Table(rows: seq<Row>, nextId: int)

  /** Ids are unique and all below the counter, so every id the counter hands out is fresh. */
  predicate WellFormed(t: Table)
  {
    UniqueIds(t.rows) && forall r :: r in t.rows ==> r.id < t.nextId
  }

  /** The rows of `rows` whose id is not listed in `ids`, in order. */
  function Surviving(rows: seq<Row>, ids: seq<int>): (kept: seq<Row>)
    ensures forall r :: r in kept <==> r in rows && r.id !in ids
    ensures UniqueIds(rows) ==> UniqueIds(kept)
  {
    if rows == [] then []
    else
      var rest := Surviving(rows[1..], ids);
      assert UniqueIds(rows) ==> UniqueIds(rows[1..]) by {
        if UniqueIds(rows) {
          forall i, j | 0 <= i < j < |rows[1..]| ensures rows[1..][i].id != rows[1..][j].id {
            assert rows[1..][i] == rows[i + 1] && rows[1..][j] == rows[j + 1];
          }
        }
      }
      if rows[0].id in ids then rest
      else
        assert UniqueIds(rows) ==> forall r :: r in rest ==> r.id != rows[0].id by {
          if UniqueIds(rows) {
            forall r | r in rest ensures r.id != rows[0].id {
              var k :| 0 <= k < |rows[1..]| && rows[1..][k] == r;
              assert rows[k + 1] == r;
            }
          }
        }
        assert UniqueIds(rows) ==> UniqueIds([rows[0]] + rest) by {
          if UniqueIds(rows) { UniqueIdsConcat([rows[0]], rest); }
        }
        [rows[0]] + rest
  }

  /** Rows for `adds`, numbered consecutively from `firstId`. */
  function Numbered(adds: seq<NewRow>, firstId: int): (rows: seq<Row>)
    ensures |rows| == |adds|
    ensures forall i :: 0 <= i < |adds| ==>
              rows[i] == Row(firstId + i, adds[i].productId, adds[i].tagId)
  {
    if adds == [] then []
    else [Row(firstId, adds[0].productId, adds[0].tagId)] + Numbered(adds[1..], firstId + 1)
  }

  /** Numbered rows have distinct ids from `firstId` up, each carrying one of `adds`. */
  lemma NumberedMembers(adds: seq<NewRow>, firstId: int)
    ensures UniqueIds(Numbered(adds, firstId))
    ensures forall r :: r in Numbered(adds, firstId) ==>
              r.id >= firstId && NewRow(r.productId, r.tagId) in adds
  {
    var rows := Numbered(adds, firstId);
    forall r | r in rows ensures r.id >= firstId && NewRow(r.productId, r.tagId) in adds {
      var k :| 0 <= k < |rows| && rows[k] == r;
      assert adds[k] == NewRow(r.productId, r.tagId);
    }
  }

  /** `destroy({ where: { id: ids } })`: every row whose id is listed goes, nothing else changes. */
  function Destroy(t: Table, ids: seq<int>): (t': Table)
    ensures t'.nextId == t.nextId
    ensures forall r :: r in t'.rows <==> r in t.rows && r.id !in ids
    ensures WellFormed(t) ==> WellFormed(t')
  {
    Table(Surviving(t.rows, ids), t.nextId)
  }

  /**
   `bulkCreate(adds)`: the existing rows stay as they are, and one new row per
   element of `adds` follows them, in order, numbered from the counter.
   */
  function BulkCreate(t: Table, adds: seq<NewRow>): (t': Table)
    ensures |t'.rows| == |t.rows| + |adds|
    ensures t'.rows[..|t.rows|] == t.rows
    ensures forall i :: 0 <= i < |adds| ==>
              t'.rows[|t.rows| + i] == Row(t.nextId + i, adds[i].productId, adds[i].tagId)
    ensures forall r :: r in t.rows ==> r in t'.rows
    ensures forall r :: r in t'.rows ==>
              r in t.rows || (r.id >= t.nextId && NewRow(r.productId, r.tagId) in adds)
    ensures t'.nextId == t.nextId + |adds|
    ensures WellFormed(t) ==> WellFormed(t')
  {
    var inserted := Numbered(adds, t.nextId);
    NumberedMembers(adds, t.nextId);
    assert WellFormed(t) ==> UniqueIds(t.rows + inserted) by {
      if WellFormed(t) {
        UniqueIdsConcat(t.rows, inserted);
      }
    }
    assert (t.rows + inserted)[..|t.rows|] == t.rows;
    Table(t.rows + inserted, t.nextId + |adds|)
  }

  /**
   The update's write step: the listed ids are destroyed and `adds` inserted.
   The two writes run concurrently; `ApplyEitherOrder` shows that when every
   listed id is an existing one, inserting first gives the same table.
   `ApplyKeeps`, `ApplyOrigin` and `ApplyInserts` state what the resulting rows are.
   */
  function Apply(t: Table, ids: seq<int>, adds: seq<NewRow>): (t': Table)
    ensures t'.nextId == t.nextId + |adds|
    ensures WellFormed(t) ==> WellFormed(t')
  {
    BulkCreate(Destroy(t, ids), adds)
  }

  /** Every unlisted row survives the update's write, and every listed existing row is gone. */
  lemma ApplyKeeps(t: Table, ids: seq<int>, adds: seq<NewRow>)
    ensures forall r :: r in t.rows && r.id !in ids ==> r in Apply(t, ids, adds).rows
    ensures forall r :: r in t.rows && r.id in ids && r.id < t.nextId ==> r !in Apply(t, ids, adds).rows
  {
    var d := Destroy(t, ids);
    assert Apply(t, ids, adds) == BulkCreate(d, adds);
  }

  /** Every row after the update's write is an unlisted old row or a fresh row for an addition. */
  lemma ApplyOrigin(t: Table, ids: seq<int>, adds: seq<NewRow>)
    ensures forall r :: r in Apply(t, ids, adds).rows ==>
              (r in t.rows && r.id !in ids) || (r.id >= t.nextId && NewRow(r.productId, r.tagId) in adds)
  {
    var d := Destroy(t, ids);
    assert Apply(t, ids, adds) == BulkCreate(d, adds);
  }

  /** Every addition is inserted, numbered from the counter in request order. */
  lemma ApplyInserts(t: Table, ids: seq<int>, adds: seq<NewRow>)
    ensures forall i :: 0 <= i < |adds| ==>
              Row(t.nextId + i, adds[i].productId, adds[i].tagId) in Apply(t, ids, adds).rows
  {
    var d := Destroy(t, ids);
    var t' := BulkCreate(d, adds);
    assert Apply(t, ids, adds) == t';
    forall i | 0 <= i < |adds| ensures Row(t.nextId + i, adds[i].productId, adds[i].tagId) in t'.rows {
      assert t'.rows[|d.rows| + i] == Row(t.nextId + i, adds[i].productId, adds[i].tagId);
    }
  }

  /** An update whose diff is empty leaves the table exactly as it was. */
  lemma {:induction false} ApplyNothing(t: Table)
    ensures Apply(t, [], []) == t
  {
    SurvivingNoneListed(t.rows, []);
    assert t.rows + Numbered([], t.nextId) == t.rows;
  }

  /** A destroy that lists none of the rows' ids keeps them all, in order. */
  lemma {:induction false} SurvivingNoneListed(rows: seq<Row>, ids: seq<int>)
    requires forall r :: r in rows ==> r.id !in ids
    ensures Surviving(rows, ids) == rows
  {
    if rows != [] {
      assert rows[0] in rows;
      assert forall r :: r in rows[1..] ==> r in rows;
      SurvivingNoneListed(rows[1..], ids);
    }
  }

  /** Destroying by id acts on each part of a concatenation separately. */
  lemma {:induction false} SurvivingConcat(a: seq<Row>, b: seq<Row>, ids: seq<int>)
    ensures Surviving(a + b, ids) == Surviving(a, ids) + Surviving(b, ids)
  {
    if a == [] {
      assert a + b == b;
    } else {
      assert (a + b)[0] == a[0];
      assert (a + b)[1..] == a[1..] + b;
      SurvivingConcat(a[1..], b, ids);
    }
  }

  /**
   When every listed id belongs to an existing row, the destroy and the insert
   commute: the ids the counter hands out are never listed, so inserting first
   and destroying afterwards leaves the same table as the other order.
   */
  lemma ApplyEitherOrder(t: Table, ids: seq<int>, adds: seq<NewRow>)
    requires forall id :: id in ids ==> id < t.nextId
    ensures Destroy(BulkCreate(t, adds), ids) == Apply(t, ids, adds)
  {
    var inserted := Numbered(adds, t.nextId);
    NumberedMembers(adds, t.nextId);
    SurvivingNoneListed(inserted, ids);
    SurvivingConcat(t.rows, inserted, ids);
  }

  /** A destroy that lists none of the ids of the product's rows for tag `x` keeps them all. */
  lemma {:induction false} SurvivingKeepsTag(rows: seq<Row>, ids: seq<int>, productId: int, x: int)
    requires forall r :: r in rows && r.productId == productId && r.tagId == x ==> r.id !in ids
    ensures TagCount(Surviving(rows, ids), productId, x) == TagCount(rows, productId, x)
  {
    if rows != [] {
      var tail := rows[1..];
      assert forall r :: r in tail ==> r in rows;
      SurvivingKeepsTag(tail, ids, productId, x);
      var kept := if rows[0].id in ids then [] else [rows[0]];
      assert Surviving(rows, ids) == kept + Surviving(tail, ids);
      TagCountConcat(kept, Surviving(tail, ids), productId, x);
      assert rows[0] in rows;
    }
  }

  /** A destroy that lists every id of the product's rows for tag `x` leaves none of them. */
  lemma {:induction false} SurvivingDropsTag(rows: seq<Row>, ids: seq<int>, productId: int, x: int)
    requires forall r :: r in rows && r.productId == productId && r.tagId == x ==> r.id in ids
    ensures TagCount(Surviving(rows, ids), productId, x) == 0
  {
    if rows != [] {
      var tail := rows[1..];
      assert forall r :: r in tail ==> r in rows;
      SurvivingDropsTag(tail, ids, productId, x);
      var kept := if rows[0].id in ids then [] else [rows[0]];
      assert Surviving(rows, ids) == kept + Surviving(tail, ids);
      TagCountConcat(kept, Surviving(tail, ids), productId, x);
      assert rows[0] in rows;
    }
  }

  /** Inserted rows carry tag `x` for the product once per new row asking for it. */
  lemma {:induction false} NumberedTagCount(adds: seq<NewRow>, firstId: int, productId: int, x: int)
    ensures TagCount(Numbered(adds, firstId), productId, x) == multiset(adds)[NewRow(productId, x)]
  {
    if adds != [] {
      assert adds == [adds[0]] + adds[1..];
      NumberedTagCount(adds[1..], firstId + 1, productId, x);
    }
  }
}
