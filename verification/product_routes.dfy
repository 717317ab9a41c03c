/**
 The product handlers' effect on the join table: the create path's tag rows and
 the update path's guard and reconciliation. The product row itself lives in the
 store; what the handlers learn from it (the new product's id, the number of rows
 an update affected) arrives here as parameters.
 */
module ProductRoutes {
  import opened Wrappers
  import opened ProductTag
  import opened JoinTable
  import opened Reconcile

  /** Why a handler answers with an error instead of the product. */
  datatype Failure =
    | NotFoundOrNotUpdated  // the update did not affect exactly one product row
    | MissingTagIds         // the body has no `tagIds`, so reading it throws

  datatype Outcome = Done | Failed(reason: Failure)

  /** What a handler reports, and the join table it leaves behind. */
  datatype Reply = Reply(outcome: Outcome, table: Table)

  /** The create path's join rows: one per requested tag id, in order, all for the new product. */
  function CreateRows(productId: int, tagIds: seq<int>): (adds: seq<NewRow>)
    ensures |adds| == |tagIds|
    ensures forall i :: 0 <= i < |tagIds| ==> adds[i].productId == productId && adds[i].tagId == tagIds[i]
  {
    if tagIds == [] then [] else [NewRow(productId, tagIds[0])] + CreateRows(productId, tagIds[1..])
  }

  /**
   Creating product `productId` (the id the store just gave it): an absent
   `tagIds` fails after the product row exists, an empty list writes no join
   rows, and otherwise every listed tag gets a row. Other products' rows are
   never touched.
   */
  function Create(t: Table, productId: int, tagIds: Option<seq<int>>): (r: Reply)
    ensures tagIds.None? ==> r == Reply(Failed(MissingTagIds), t)
    ensures tagIds.Some? ==> r.outcome == Done
    ensures tagIds == Some([]) ==> r.table == t
    ensures WellFormed(t) ==> WellFormed(r.table)
    ensures forall row: Row :: row.productId != productId ==> (row in r.table.rows <==> row in t.rows)
  {
    match tagIds
    case None => Reply(Failed(MissingTagIds), t)
    case Some(ts) =>
      if |ts| > 0 then
        var adds := CreateRows(productId, ts);
        var t' := BulkCreate(t, adds);
        assert t'.rows == t.rows + Numbered(adds, t.nextId);
        assert forall row :: row in Numbered(adds, t.nextId) ==> row.productId == productId;
        Reply(Done, t')
      else
        Reply(Done, t)
  }

  /**
   Updating product `productId`, whose `Product.update` affected `affected` rows:
   unless exactly one row was affected the handler fails before reading the join
   table; an absent `tagIds` fails before writing it; otherwise the diff between
   the product's current rows and the request is applied.
   */
  function Update(t: Table, productId: int, affected: int, tagIds: Option<seq<int>>): (r: Reply)
    ensures affected != 1 ==> r == Reply(Failed(NotFoundOrNotUpdated), t)
    ensures affected == 1 && tagIds.None? ==> r == Reply(Failed(MissingTagIds), t)
    ensures r.outcome == Done <==> affected == 1 && tagIds.Some?
    ensures WellFormed(t) ==> WellFormed(r.table)
  {
    if affected != 1 then Reply(Failed(NotFoundOrNotUpdated), t)
    else
      var current := RowsOf(t.rows, productId);
      match tagIds
      case None => Reply(Failed(MissingTagIds), t)
      case Some(requested) =>
        Reply(Done, Apply(t, ToRemove(current, requested), ToAdd(current, requested, productId)))
  }

  /**
   After a successful update the product's tags all come from the request: a
   surviving old row was kept because its tag was requested, a new row was
   built from the request.
   */
  lemma UpdateTagsRequested(t: Table, productId: int, requested: seq<int>)
    ensures forall x :: x in TagSetOf(Update(t, productId, 1, Some(requested)).table.rows, productId)
              ==> x in requested
  {
    var current := RowsOf(t.rows, productId);
    var ids := ToRemove(current, requested);
    var adds := ToAdd(current, requested, productId);
    var t' := Apply(t, ids, adds);
    assert Update(t, productId, 1, Some(requested)).table == t';
    ApplyOrigin(t, ids, adds);
    forall x | x in TagSetOf(t'.rows, productId) ensures x in requested {
      var r :| r in t'.rows && r.productId == productId && r.tagId == x;
      if r in t.rows && r.id !in ids {
        assert r in current;
      } else {
        assert NewRow(r.productId, r.tagId) in adds;
      }
    }
  }

  /**
   After a successful update every requested tag is on the product: a tag it
   already had keeps its row, a tag it lacked gets a new one.
   */
  lemma RequestedTagsPresent(t: Table, productId: int, requested: seq<int>)
    requires WellFormed(t)
    ensures forall x :: x in requested
              ==> x in TagSetOf(Update(t, productId, 1, Some(requested)).table.rows, productId)
  {
    var current := RowsOf(t.rows, productId);
    var ids := ToRemove(current, requested);
    var adds := ToAdd(current, requested, productId);
    var t' := Apply(t, ids, adds);
    assert Update(t, productId, 1, Some(requested)).table == t';
    UpdateStability(t, productId, requested);
    ApplyInserts(t, ids, adds);
    forall x | x in requested ensures x in TagSetOf(t'.rows, productId) {
      if x in TagIds(current) {
        var k :| 0 <= k < |current| && TagIds(current)[k] == x;
        assert current[k] in current;
        assert current[k] in t'.rows;
      } else {
        assert NewRow(productId, x) in adds;
        var i :| 0 <= i < |adds| && adds[i] == NewRow(productId, x);
        assert Row(t.nextId + i, productId, x) in t'.rows;
      }
    }
  }

  /** After a successful update the product's tags are exactly the requested ones, as a set. */
  lemma UpdateTagSet(t: Table, productId: int, requested: seq<int>)
    requires WellFormed(t)
    ensures TagSetOf(Update(t, productId, 1, Some(requested)).table.rows, productId)
            == set x | x in requested
  {
    var tags := TagSetOf(Update(t, productId, 1, Some(requested)).table.rows, productId);
    UpdateTagsRequested(t, productId, requested);
    RequestedTagsPresent(t, productId, requested);
    assert forall x :: x in tags <==> x in requested;
  }

  /**
   The update's destroy and insert run concurrently; the ids it destroys all
   belong to existing rows, so either order of the two writes gives the same table.
   */
  lemma UpdateWritesCommute(t: Table, productId: int, requested: seq<int>)
    requires WellFormed(t)
    ensures var current := RowsOf(t.rows, productId);
            var ids := ToRemove(current, requested);
            var adds := ToAdd(current, requested, productId);
            Destroy(BulkCreate(t, adds), ids) == Update(t, productId, 1, Some(requested)).table
  {
    var current := RowsOf(t.rows, productId);
    var ids := ToRemove(current, requested);
    var adds := ToAdd(current, requested, productId);
    forall id | id in ids ensures id < t.nextId {
      var r :| r in current && r.id == id && r.tagId !in requested;
      assert r in t.rows;
    }
    ApplyEitherOrder(t, ids, adds);
  }

  /**
   An update touches only what the diff names: the product's rows whose tag is
   still requested survive with their ids, its rows whose tag is no longer
   requested are gone, and other products' rows are neither removed nor added.
   */
  lemma UpdateStability(t: Table, productId: int, requested: seq<int>)
    requires WellFormed(t)
    ensures var t' := Update(t, productId, 1, Some(requested)).table;
            && (forall r :: r in t.rows && r.productId == productId && r.tagId in requested ==> r in t'.rows)
            && (forall r :: r in t.rows && r.productId == productId && r.tagId !in requested ==> r !in t'.rows)
            && (forall r: Row :: r.productId != productId ==> (r in t'.rows <==> r in t.rows))
  {
    var current := RowsOf(t.rows, productId);
    var ids := ToRemove(current, requested);
    var adds := ToAdd(current, requested, productId);
    var t' := Apply(t, ids, adds);
    assert Update(t, productId, 1, Some(requested)).table == t';
    ApplyKeeps(t, ids, adds);
    ApplyOrigin(t, ids, adds);
    forall r | r in t.rows && r.productId == productId && r.tagId in requested ensures r in t'.rows {
      forall s | s in current && s.id == r.id ensures s.tagId in requested {
        SameIdSameRow(t.rows, r, s);
      }
    }
    forall r | r in t.rows && r.productId == productId && r.tagId !in requested ensures r !in t'.rows {
      assert r in current;
      assert r.id in ids;
    }
    forall r: Row | r.productId != productId ensures r in t'.rows <==> r in t.rows {
      if r in t.rows {
        forall s | s in current ensures s.id != r.id {
          SameIdSameRow(t.rows, r, s);
        }
        assert r.id !in ids;
      }
    }
  }

  /**
   How many of the product's rows carry tag `x` after a successful update: none
   if `x` is not requested; as many as before if it was already present; and
   otherwise one per occurrence of `x` in the request, since the request's
   duplicates are not collapsed.
   */
  lemma UpdateTagMultiplicity(t: Table, productId: int, requested: seq<int>, x: int)
    requires WellFormed(t)
    ensures TagCount(Update(t, productId, 1, Some(requested)).table.rows, productId, x)
            == if x !in requested then 0
               else if TagCount(t.rows, productId, x) > 0 then TagCount(t.rows, productId, x)
               else multiset(requested)[x]
  {
    var current := RowsOf(t.rows, productId);
    var ids := ToRemove(current, requested);
    var adds := ToAdd(current, requested, productId);
    var kept := Surviving(t.rows, ids);
    var inserted := Numbered(adds, t.nextId);
    var before := TagCount(t.rows, productId, x);
    assert Update(t, productId, 1, Some(requested)).table.rows == kept + inserted;
    assert TagCount(inserted, productId, x)
           == if before > 0 then 0 else multiset(requested)[x] by {
      NumberedTagCount(adds, t.nextId, productId, x);
      ToAddMultiplicity(current, requested, productId, x);
      TagIdsOfRowsOf(t.rows, productId);
      TagCountPositive(t.rows, productId, x);
    }
    assert TagCount(kept, productId, x) == if x in requested then before else 0 by {
      if x in requested {
        forall r | r in t.rows && r.productId == productId && r.tagId == x ensures r.id !in ids {
          forall s | s in current ensures s.id == r.id ==> s == r {
            SameIdSameRow(t.rows, r, s);
          }
        }
        SurvivingKeepsTag(t.rows, ids, productId, x);
      } else {
        forall r | r in t.rows && r.productId == productId && r.tagId == x ensures r.id in ids {
          assert r in current;
        }
        SurvivingDropsTag(t.rows, ids, productId, x);
      }
    }
    assert x !in requested ==> multiset(requested)[x] == 0;
    TagCountConcat(kept, inserted, productId, x);
  }

  /**
   An update keeps the product's rows free of duplicate tags when they were
   before and the request repeats no id.
   */
  lemma UpdateKeepsTagsDistinct(t: Table, productId: int, requested: seq<int>)
    requires WellFormed(t)
    requires DistinctTags(t.rows, productId)
    requires forall x :: multiset(requested)[x] <= 1
    ensures DistinctTags(Update(t, productId, 1, Some(requested)).table.rows, productId)
  {
    forall x ensures TagCount(Update(t, productId, 1, Some(requested)).table.rows, productId, x) <= 1 {
      UpdateTagMultiplicity(t, productId, requested, x);
    }
  }

  /**
   Idempotence: reconciling the updated table against the same request finds
   nothing to add and nothing to remove, so a repeated update changes nothing.
   */
  lemma UpdateIdempotent(t: Table, productId: int, requested: seq<int>)
    requires WellFormed(t)
    ensures var once := Update(t, productId, 1, Some(requested));
            var current := RowsOf(once.table.rows, productId);
            && ToAdd(current, requested, productId) == []
            && ToRemove(current, requested) == []
            && Update(once.table, productId, 1, Some(requested)) == once
  {
    var once := Update(t, productId, 1, Some(requested));
    var current := RowsOf(once.table.rows, productId);
    UpdateTagSet(t, productId, requested);
    TagIdsOfRowsOf(once.table.rows, productId);
    assert forall x :: x in requested <==> x in TagIds(current);
    DiffEmptyIffSameTags(current, requested, productId);
    ApplyNothing(once.table);
  }

  /**
   Creating with tag ids appends the product's new rows after its existing ones,
   one per listed id, in list order and with duplicates kept.
   */
  lemma CreateTags(t: Table, productId: int, tagIds: seq<int>)
    ensures var t' := Create(t, productId, Some(tagIds)).table;
            && TagIds(RowsOf(t'.rows, productId)) == TagIds(RowsOf(t.rows, productId)) + tagIds
            && |RowsOf(t'.rows, productId)| == |RowsOf(t.rows, productId)| + |tagIds|
  {
    if |tagIds| > 0 {
      var adds := CreateRows(productId, tagIds);
      var inserted := Numbered(adds, t.nextId);
      assert Create(t, productId, Some(tagIds)).table.rows == t.rows + inserted;
      RowsOfConcat(t.rows, inserted, productId);
      RowsOfAll(inserted, productId);
      TagIdsConcat(RowsOf(t.rows, productId), inserted);
      assert TagIds(inserted) == tagIds;
    } else {
      assert tagIds == [];
    }
  }

  /**
   For a product with no join rows the update's additions are exactly the
   create path's rows: both paths build one row per requested id.
   */
  lemma {:induction false} CreateAgreesWithUpdate(productId: int, tagIds: seq<int>)
    ensures ToAdd([], tagIds, productId) == CreateRows(productId, tagIds)
  {
    if tagIds != [] {
      CreateAgreesWithUpdate(productId, tagIds[1..]);
    }
  }

  /**
   Product 7 has rows for tags 10 and 11; a request for [11, 12] deletes the
   tag-10 row, keeps the tag-11 row with its id, and inserts one row for tag 12.
   Product 8's row is untouched.
   */
  lemma UpdateExample()
    ensures Update(Table([Row(1, 7, 10), Row(2, 7, 11), Row(3, 8, 10)], 4), 7, 1, Some([11, 12]))
            == Reply(Done, Table([Row(2, 7, 11), Row(3, 8, 10), Row(4, 7, 12)], 5))
  {
    var rows := [Row(1, 7, 10), Row(2, 7, 11), Row(3, 8, 10)];
    var t := Table(rows, 4);
    var current := [Row(1, 7, 10), Row(2, 7, 11)];
    ExampleCurrent();
    assert Update(t, 7, 1, Some([11, 12]))
           == Reply(Done, Apply(t, ToRemove(current, [11, 12]), ToAdd(current, [11, 12], 7)));
    ExampleDiff();
    ExampleWrite();
  }

  lemma ExampleCurrent()
    ensures RowsOf([Row(1, 7, 10), Row(2, 7, 11), Row(3, 8, 10)], 7) == [Row(1, 7, 10), Row(2, 7, 11)]
  {
    var rows := [Row(1, 7, 10), Row(2, 7, 11), Row(3, 8, 10)];
    assert rows[1..] == [Row(2, 7, 11), Row(3, 8, 10)];
    assert rows[1..][1..] == [Row(3, 8, 10)];
  }

  lemma ExampleDiff()
    ensures ToRemove([Row(1, 7, 10), Row(2, 7, 11)], [11, 12]) == [1]
    ensures ToAdd([Row(1, 7, 10), Row(2, 7, 11)], [11, 12], 7) == [NewRow(7, 12)]
  {
    var current := [Row(1, 7, 10), Row(2, 7, 11)];
    assert current[1..] == [Row(2, 7, 11)];
    assert TagIds(current) == [10, 11];
    assert [11, 12][1..] == [12];
  }

  lemma ExampleWrite()
    ensures Apply(Table([Row(1, 7, 10), Row(2, 7, 11), Row(3, 8, 10)], 4), [1], [NewRow(7, 12)])
            == Table([Row(2, 7, 11), Row(3, 8, 10), Row(4, 7, 12)], 5)
  {
    var rows := [Row(1, 7, 10), Row(2, 7, 11), Row(3, 8, 10)];
    assert rows[1..] == [Row(2, 7, 11), Row(3, 8, 10)];
    assert rows[1..][1..] == [Row(3, 8, 10)];
    assert Surviving(rows, [1]) == [Row(2, 7, 11), Row(3, 8, 10)];
    assert Numbered([NewRow(7, 12)], 4) == [Row(4, 7, 12)];
  }

  /** A request that repeats a new tag id yields one row per occurrence. */
  lemma DuplicateRequestExample()
    ensures Update(Table([], 1), 7, 1, Some([5, 5])) == Reply(Done, Table([Row(1, 7, 5), Row(2, 7, 5)], 3))
  {
    assert Update(Table([], 1), 7, 1, Some([5, 5]))
           == Reply(Done, Apply(Table([], 1), ToRemove([], [5, 5]), ToAdd([], [5, 5], 7)));
    DuplicateDiff();
    DuplicateWrite();
  }

  lemma DuplicateDiff()
    ensures ToRemove([], [5, 5]) == []
    ensures ToAdd([], [5, 5], 7) == [NewRow(7, 5), NewRow(7, 5)]
  {
    assert [5, 5][1..] == [5];
  }

  lemma DuplicateWrite()
    ensures Apply(Table([], 1), [], [NewRow(7, 5), NewRow(7, 5)]) == Table([Row(1, 7, 5), Row(2, 7, 5)], 3)
  {
    var adds := [NewRow(7, 5), NewRow(7, 5)];
    assert adds[1..] == [NewRow(7, 5)];
    assert Numbered(adds, 1) == [Row(1, 7, 5), Row(2, 7, 5)];
  }
}
