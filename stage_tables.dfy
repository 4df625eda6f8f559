/** The six stage-record collections. Each collection is a table of rows in
    storage order; a review's slot for a stage is the list of rows of that
    stage's table whose reviewId is the review's id. */
module StageTables {
  import opened Common

  /** One stage row. Its content fields are opaque to the workflow; the empty
      map stands for a row created with every field at its default. */
  datatype StageRecord = StageRecord(id: Id, reviewId: Id, content: map<string, Value>)

  type Table = seq<StageRecord>

  function IdsOf(t: Table): set<Id>
  {
    set x | x in t :: x.id
  }

  /** The primary key of a stage table: no two rows share an id. */
  predicate UniqueIds(t: Table)
  {
    forall i, j :: 0 <= i < j < |t| ==> t[i].id != t[j].id
  }

  /** The rows of review `rid` in this table, in storage order. */
  function Slot(t: Table, rid: Id): (r: Table)
    ensures forall x :: x in r <==> x in t && x.reviewId == rid
    ensures |r| <= |t|
  {
    if t == [] then []
    else if t[0].reviewId == rid then [t[0]] + Slot(t[1..], rid)
    else Slot(t[1..], rid)
  }

  /** The position of the first row of review `rid`, if it has one. */
  function FirstIndex(t: Table, rid: Id): (r: Option<nat>)
    ensures r.None? <==> forall i :: 0 <= i < |t| ==> t[i].reviewId != rid
    ensures r.Some? ==> r.value < |t| && t[r.value].reviewId == rid
    ensures r.Some? ==> forall j :: 0 <= j < r.value ==> t[j].reviewId != rid
  {
    if t == [] then None
    else if t[0].reviewId == rid then Some(0)
    else match FirstIndex(t[1..], rid)
      case None => None
      case Some(i) => Some(i + 1)
  }

  /** Element 0 of a review's slot is the row at its first position, and the
      slot is empty exactly when the review has no row in the table. */
  lemma {:induction false} FirstOfSlot(t: Table, rid: Id)
    ensures FirstIndex(t, rid).None? <==> Slot(t, rid) == []
    ensures FirstIndex(t, rid).Some? ==> Slot(t, rid)[0] == t[FirstIndex(t, rid).value]
  {
    if t != [] && t[0].reviewId != rid {
      FirstOfSlot(t[1..], rid);
    }
  }

  /** A partial field update: fields named in the body take the body's
      value, every other field keeps its value. */
  function Patch(content: map<string, Value>, body: map<string, Value>): (r: map<string, Value>)
    ensures r.Keys == content.Keys + body.Keys
    ensures forall k :: k in body ==> r[k] == body[k]
    ensures forall k :: k in content && k !in body ==> r[k] == content[k]
  {
    content + body
  }

  /** The fields of an update body other than the two key columns. */
  function ContentOf(body: map<string, Value>): (c: map<string, Value>)
    ensures c.Keys == body.Keys - {"id", "reviewId"}
    ensures forall k :: k in c ==> c[k] == body[k]
  {
    map k | k in body && k != "id" && k != "reviewId" :: body[k]
  }

  /** A row after `update` with `data: body`: a key column the body names
      takes the body's string; a key column it does not name is kept; the
      other fields of the body are a partial write of the row's content. */
  function Rewrite(x: StageRecord, body: map<string, Value>): (r: StageRecord)
    ensures "id" !in body ==> r.id == x.id
    ensures "id" in body && body["id"].Str? ==> r.id == body["id"].s
    ensures "reviewId" !in body ==> r.reviewId == x.reviewId
    ensures "reviewId" in body && body["reviewId"].Str? ==> r.reviewId == body["reviewId"].s
    ensures r.content == Patch(x.content, ContentOf(body))
  {
    StageRecord(
      if "id" in body && body["id"].Str? then body["id"].s else x.id,
      if "reviewId" in body && body["reviewId"].Str? then body["reviewId"].s else x.reviewId,
      Patch(x.content, ContentOf(body)))
  }

  /** The database accepts the update of row `x` of table `t`: a key column
      is written with a string; a new id is not held by another row (the
      primary key); a new reviewId names an existing review (the foreign
      key). */
  predicate Writable(t: Table, x: StageRecord, body: map<string, Value>, reviews: set<Id>)
  {
    && ("id" in body ==> body["id"].Str? && (body["id"].s == x.id || body["id"].s !in IdsOf(t)))
    && ("reviewId" in body ==> body["reviewId"].Str? && body["reviewId"].s in reviews)
  }

  /** `update({where: {id}, data: body})` on a stage table. */
  function UpdateById(t: Table, id: Id, body: map<string, Value>): (r: Table)
    ensures |r| == |t|
    ensures forall i :: 0 <= i < |t| && t[i].id != id ==> r[i] == t[i]
    ensures forall i :: 0 <= i < |t| && t[i].id == id ==> r[i] == Rewrite(t[i], body)
  {
    seq(|t|, i requires 0 <= i < |t| => if t[i].id == id then Rewrite(t[i], body) else t[i])
  }

  /** `deleteMany({where: {reviewId}})` for every review id in `rids`. */
  function WithoutReviews(t: Table, rids: set<Id>): (r: Table)
    ensures forall x :: x in r <==> x in t && x.reviewId !in rids
  {
    if t == [] then []
    else
      var rest := WithoutReviews(t[1..], rids);
      if t[0].reviewId in rids then rest else [t[0]] + rest
  }

  /** Removing the rows of no review keeps the table as it is. */
  lemma {:induction false} WithoutNoReviews(t: Table)
    ensures WithoutReviews(t, {}) == t
  {
    if t != [] {
      WithoutNoReviews(t[1..]);
      assert t == [t[0]] + t[1..];
    }
  }

  /** A review with no row in the table has an empty slot. */
  lemma EmptySlot(t: Table, rid: Id)
    requires forall x :: x in t ==> x.reviewId != rid
    ensures Slot(t, rid) == []
  {
    if Slot(t, rid) != [] {
      assert Slot(t, rid)[0] in Slot(t, rid);
    }
  }

  /** Deleting rows keeps the ids unique. */
  lemma {:induction false} RemovalKeepsUniqueIds(t: Table, rids: set<Id>)
    requires UniqueIds(t)
    ensures UniqueIds(WithoutReviews(t, rids))
  {
    if t != [] {
      var rest := WithoutReviews(t[1..], rids);
      assert UniqueIds(t[1..]) by {
        forall i, j | 0 <= i < j < |t[1..]| ensures t[1..][i].id != t[1..][j].id {
          assert t[1..][i] == t[i + 1] && t[1..][j] == t[j + 1];
        }
      }
      RemovalKeepsUniqueIds(t[1..], rids);
      if t[0].reviewId !in rids {
        forall x | x in rest ensures x.id != t[0].id {
          var j :| 0 <= j < |t[1..]| && t[1..][j] == x;
          assert t[j + 1] == x;
        }
        var r := [t[0]] + rest;
        forall i, j | 0 <= i < j < |r| ensures r[i].id != r[j].id {
          if i == 0 {
            assert r[j] == rest[j - 1];
            assert r[j] in rest;
          } else {
            assert r[i] == rest[i - 1] && r[j] == rest[j - 1];
          }
        }
      }
    }
  }

  /** Deleting the rows of some reviews keeps the ids unique and leaves only
      rows of the other reviews. */
  lemma RemovalKeepsRowsValid(t: Table, rids: set<Id>, reviews: set<Id>)
    requires UniqueIds(t)
    requires forall x :: x in t ==> x.reviewId in reviews
    ensures UniqueIds(WithoutReviews(t, rids))
    ensures forall x :: x in WithoutReviews(t, rids) ==> x.reviewId in reviews - rids
  {
    RemovalKeepsUniqueIds(t, rids);
  }

  /** Appending a row extends only the slot of that row's review. */
  lemma {:induction false} SlotAppend(t: Table, x: StageRecord, rid: Id)
    ensures Slot(t + [x], rid) == Slot(t, rid) + (if x.reviewId == rid then [x] else [])
  {
    if t != [] {
      assert (t + [x])[1..] == t[1..] + [x];
      SlotAppend(t[1..], x, rid);
    }
  }

  /** Deleting the rows of other reviews leaves a review's slot as it was. */
  lemma {:induction false} SlotAfterRemoval(t: Table, rids: set<Id>, rid: Id)
    requires rid !in rids
    ensures Slot(WithoutReviews(t, rids), rid) == Slot(t, rid)
  {
    if t != [] {
      SlotAfterRemoval(t[1..], rids, rid);
    }
  }

  /** Replacing row `i` moves it out of the slot of its old review and into
      the slot of its new one; every other slot keeps its length. */
  lemma {:induction false} SlotLengthAt(t: Table, i: nat, y: StageRecord, rid: Id)
    requires i < |t|
    ensures |Slot(t[i := y], rid)| ==
              |Slot(t, rid)| - (if t[i].reviewId == rid then 1 else 0) + (if y.reviewId == rid then 1 else 0)
  {
    var u := t[i := y];
    if i == 0 {
      assert u[0] == y && u[1..] == t[1..];
    } else {
      assert u[0] == t[0] && u[1..] == t[1..][i - 1 := y];
      SlotLengthAt(t[1..], i - 1, y, rid);
    }
  }

  /** Moving the one row of review `r1` to review `r2`, which has one row
      too, empties the slot of `r1` and gives `r2` two rows. */
  lemma MoveRow(t: Table, i: nat, y: StageRecord, r1: Id, r2: Id)
    requires i < |t| && t[i].reviewId == r1 && y.reviewId == r2 && r1 != r2
    requires |Slot(t, r1)| == 1 && |Slot(t, r2)| == 1
    ensures Slot(t[i := y], r1) == [] && |Slot(t[i := y], r2)| == 2
  {
    SlotLengthAt(t, i, y, r1);
    SlotLengthAt(t, i, y, r2);
  }

  /** With unique ids, updating the row found at position `i` by its id
      rewrites that row only. */
  lemma UpdateOnlyAt(t: Table, i: nat, body: map<string, Value>)
    requires UniqueIds(t) && i < |t|
    ensures UpdateById(t, t[i].id, body) == t[i := Rewrite(t[i], body)]
  {
    var u := UpdateById(t, t[i].id, body);
    forall j | 0 <= j < |t| && j != i
      ensures u[j] == t[j]
    {
      assert j < i || i < j;
    }
  }

  /** An update the database accepts keeps the ids unique. */
  lemma UpdateKeepsUniqueIds(t: Table, i: nat, body: map<string, Value>, reviews: set<Id>)
    requires UniqueIds(t) && i < |t| && Writable(t, t[i], body, reviews)
    ensures UniqueIds(UpdateById(t, t[i].id, body))
  {
    UpdateOnlyAt(t, i, body);
    var y := Rewrite(t[i], body);
    var u := t[i := y];
    forall a, b | 0 <= a < b < |u| ensures u[a].id != u[b].id {
      if a == i {
        assert t[b] in t;
      } else if b == i {
        assert t[a] in t;
      }
    }
  }

  /** An update the database accepts keeps every row owned by an existing
      review. */
  lemma UpdateKeepsOwners(t: Table, i: nat, body: map<string, Value>, reviews: set<Id>)
    requires UniqueIds(t) && i < |t| && Writable(t, t[i], body, reviews)
    requires forall x :: x in t ==> x.reviewId in reviews
    ensures forall x :: x in UpdateById(t, t[i].id, body) ==> x.reviewId in reviews
  {
    UpdateOnlyAt(t, i, body);
    var u := t[i := Rewrite(t[i], body)];
    assert t[i] in t;
    forall x | x in u ensures x.reviewId in reviews {
      var k :| 0 <= k < |u| && u[k] == x;
      if k != i {
        assert t[k] in t;
      }
    }
  }
}
