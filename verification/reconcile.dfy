/**
 The diff at the heart of the product update: given the product's current join
 rows and the requested tag ids, which rows to insert and which row ids to delete.
 */
module Reconcile {
  import opened ProductTag

  /**
   The rows to insert: one per element of `requested` whose tag none of the
   current rows carries, in request order, each for product `productId`.
   */
  function ToAdd(current: seq<Row>, requested: seq<int>, productId: int): (adds: seq<NewRow>)
    ensures |adds| <= |requested|
    ensures forall a :: a in adds ==>
              a.productId == productId && a.tagId in requested && a.tagId !in TagIds(current)
    ensures forall t :: t in requested && t !in TagIds(current) ==> NewRow(productId, t) in adds
  {
    if requested == [] then []
    else
      var t := requested[0];
      (if t in TagIds(current) then [] else [NewRow(productId, t)])
      + ToAdd(current, requested[1..], productId)
  }

  /** The ids of the current rows whose tag is not requested, in current-row order. */
  function ToRemove(current: seq<Row>, requested: seq<int>): (ids: seq<int>)
    ensures |ids| <= |current|
    ensures forall id :: id in ids <==>
              exists r :: r in current && r.id == id && r.tagId !in requested
  {
    if current == [] then []
    else
      (if current[0].tagId in requested then [] else [current[0].id])
      + ToRemove(current[1..], requested)
  }

  /** Additions follow the request: the diff of a concatenated request is the concatenation of the diffs. */
  lemma {:induction false} ToAddConcat(current: seq<Row>, a: seq<int>, b: seq<int>, productId: int)
    ensures ToAdd(current, a + b, productId) == ToAdd(current, a, productId) + ToAdd(current, b, productId)
  {
    if a == [] {
      assert a + b == b;
    } else {
      assert (a + b)[0] == a[0];
      assert (a + b)[1..] == a[1..] + b;
      ToAddConcat(current, a[1..], b, productId);
    }
  }

  /** A one-element request yields a row exactly when its tag is not already present. */
  lemma ToAddSingle(current: seq<Row>, t: int, productId: int)
    ensures ToAdd(current, [t], productId) == if t in TagIds(current) then [] else [NewRow(productId, t)]
  {
  }

  /**
   Duplicates in the request are not collapsed: a new tag gets as many rows as it
   has occurrences in the request, a present tag gets none.
   */
  lemma {:induction false} ToAddMultiplicity(current: seq<Row>, requested: seq<int>, productId: int, t: int)
    ensures multiset(ToAdd(current, requested, productId))[NewRow(productId, t)]
            == if t in TagIds(current) then 0 else multiset(requested)[t]
  {
    if requested != [] {
      assert requested == [requested[0]] + requested[1..];
      ToAddMultiplicity(current, requested[1..], productId, t);
    }
  }

  /** Removals follow the current rows: the diff of concatenated rows is the concatenation of the diffs. */
  lemma {:induction false} ToRemoveConcat(a: seq<Row>, b: seq<Row>, requested: seq<int>)
    ensures ToRemove(a + b, requested) == ToRemove(a, requested) + ToRemove(b, requested)
  {
    if a == [] {
      assert a + b == b;
    } else {
      assert (a + b)[0] == a[0];
      assert (a + b)[1..] == a[1..] + b;
      ToRemoveConcat(a[1..], b, requested);
    }
  }

  /** A single current row is removed exactly when its tag is not requested. */
  lemma ToRemoveSingle(r: Row, requested: seq<int>)
    ensures ToRemove([r], requested) == if r.tagId in requested then [] else [r.id]
  {
  }

  /**
   No delete-then-reinsert: a current row whose tag is still requested keeps its
   id out of the removals, and its tag is not among the additions.
   */
  lemma KeptRowsUntouched(current: seq<Row>, requested: seq<int>, productId: int, r: Row)
    requires UniqueIds(current)
    requires r in current && r.tagId in requested
    ensures r.id !in ToRemove(current, requested)
    ensures forall a :: a in ToAdd(current, requested, productId) ==> a.tagId != r.tagId
  {
    forall s | s in current ensures s.id == r.id ==> s == r {
      SameIdSameRow(current, r, s);
    }
    var k :| 0 <= k < |current| && current[k] == r;
    assert TagIds(current)[k] == r.tagId;
  }

  /** No tag is both added and removed. */
  lemma AddedAndRemovedDisjoint(current: seq<Row>, requested: seq<int>, productId: int)
    ensures forall a, r ::
              (a in ToAdd(current, requested, productId) && r in current && r.id in ToRemove(current, requested))
              ==> a.tagId != r.tagId
  {
    forall a, r | a in ToAdd(current, requested, productId) && r in current
                  && r.id in ToRemove(current, requested)
      ensures a.tagId != r.tagId
    {
      var k :| 0 <= k < |current| && current[k] == r;
      assert TagIds(current)[k] == r.tagId;
    }
  }

  /**
   The diff is empty exactly when the current rows carry the requested tags and
   no others, as sets.
   */
  lemma DiffEmptyIffSameTags(current: seq<Row>, requested: seq<int>, productId: int)
    ensures ToAdd(current, requested, productId) == [] && ToRemove(current, requested) == []
            <==> forall x :: x in requested <==> x in TagIds(current)
  {
    var adds := ToAdd(current, requested, productId);
    var ids := ToRemove(current, requested);
    if adds == [] && ids == [] {
      forall x | x in TagIds(current) ensures x in requested {
        var k :| 0 <= k < |current| && TagIds(current)[k] == x;
        assert current[k] in current && current[k].id !in ids;
      }
    }
    forall r | r in current ensures r.tagId in TagIds(current) {
      var k :| 0 <= k < |current| && current[k] == r;
      assert TagIds(current)[k] == r.tagId;
    }
    assert |adds| > 0 ==> adds[0] in adds;
    assert |ids| > 0 ==> ids[0] in ids;
  }
}
