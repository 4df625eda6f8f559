/** The review handler of review.js: a partial update of the first row of
    one stage slot of a review. */
module Reviews {
  import opened Common
  import opened Stages
  import opened StageTables
  import opened Database

  /** The `updateFunctions` dispatch table: the stage table whose `update` a
      token selects. It agrees with the token table of `reviewFields`, so
      the row that is updated lies in the slot that was resolved. */
  function UpdateTarget(t: string): (r: Option<Stage>)
    ensures r == ParseStage(t)
  {
    match t
    case "zero" => Some(Zero)
    case "one" => Some(One)
    case "two" => Some(Two)
    case "three" => Some(Three)
    case "model" => Some(Model)
    case "final" => Some(Final)
    case _ => None
  }

  /** The success message; it names the requested token. */
  function UpdatedMessage(token: string): (m: string)
    ensures |m| == 7 + |token| + 22
    ensures m[..7] == "review " && m[7..7 + |token|] == token
    ensures m[7 + |token|..] == "  updated successfully"
  {
    "review " + token + "  updated successfully"
  }

  /** The slot a request resolves to, when its token is one of the six. */
  function RequestedSlot(db: Db, reviewId: Id, stage: Option<string>): Table
    requires !Falsy(stage) && stage.value in StageTokens
  {
    Slot(db.tables.Get(ParseStage(stage.value).value), reviewId)
  }

  /** updateReview. Every response other than 200 leaves the store as it
      was; a 200 changes one stage table only. The body is passed to the
      update as it is, so it may also write the row's key columns; a write
      the database refuses ends in 500. */
  function UpdateReview(db: Db, reviewId: Id, stage: Option<string>, body: map<string, Value>): (out: (Response, Db))
    ensures out.0.status in {200, 400, 404, 500}
    ensures out.0.status != 200 ==> out.1 == db
    ensures Falsy(stage) ==> out.0 == Fail(400, "Stage query parameter is required")
    ensures !Falsy(stage) && stage.value !in StageTokens ==> out.0 == Fail(400, "Invalid stage value")
    ensures !Falsy(stage) && stage.value in StageTokens && reviewId !in db.reviews ==>
              out.0 == Fail(404, "Review stage not found")
    ensures !Falsy(stage) && stage.value in StageTokens && RequestedSlot(db, reviewId, stage) == [] ==>
              out.0 == Fail(404, "Review stage not found")
    ensures !Falsy(stage) && stage.value in StageTokens && reviewId in db.reviews &&
            RequestedSlot(db, reviewId, stage) != [] ==>
              && (out.0.status == 200 <==>
                    Writable(db.tables.Get(ParseStage(stage.value).value), RequestedSlot(db, reviewId, stage)[0],
                             body, db.reviews.Keys))
              && (out.0.status != 200 ==> out.0 == Fail(500, "Internal Server Error"))
    ensures out.0.status == 200 ==>
              && out.1 == db.(tables := out.1.tables)
              && forall st :: st != ParseStage(stage.value).value ==> out.1.tables.Get(st) == db.tables.Get(st)
  {
    if Falsy(stage) then (Fail(400, "Stage query parameter is required"), db)
    else match ParseStage(stage.value)
      case None => (Fail(400, "Invalid stage value"), db)
      case Some(s) =>
        var slot := Slot(db.tables.Get(s), reviewId);
        if reviewId !in db.reviews || slot == [] then (Fail(404, "Review stage not found"), db)
        else
          var first := slot[0];
          var target := UpdateTarget(stage.value).value;
          if !Writable(db.tables.Get(target), first, body, db.reviews.Keys) then
            (Fail(500, "Internal Server Error"), db)
          else
            var updated := UpdateById(db.tables.Get(target), first.id, body);
            (Response(200, UpdatedBody(Rewrite(first, body), UpdatedMessage(stage.value))),
             db.(tables := db.tables.Set(target, updated)))
  }

  /** The store after a successful update: the database accepted the write,
      and the resolved slot's table has its first row updated by id. */
  lemma UpdateOk(db: Db, reviewId: Id, stage: Option<string>, body: map<string, Value>)
    requires UpdateReview(db, reviewId, stage, body).0.status == 200
    ensures stage.Some? && ParseStage(stage.value).Some?
    ensures var s := ParseStage(stage.value).value;
      var slot := Slot(db.tables.Get(s), reviewId);
      && reviewId in db.reviews && slot != []
      && Writable(db.tables.Get(s), slot[0], body, db.reviews.Keys)
      && UpdateReview(db, reviewId, stage, body).1 ==
           db.(tables := db.tables.Set(s, UpdateById(db.tables.Get(s), slot[0].id, body)))
  {
  }

  /** A successful update writes only the first row of the resolved slot:
      its key columns as the body names them and the body's other fields
      over its content; the other rows of that table (the rest of the slot
      included), the other five tables and every other part of the store
      are unchanged. The response carries the updated row and names the
      requested stage. */
  lemma UpdateIsolated(db: Db, reviewId: Id, stage: Option<string>, body: map<string, Value>)
    requires Valid(db)
    requires UpdateReview(db, reviewId, stage, body).0.status == 200
    ensures stage.Some? && ParseStage(stage.value).Some?
    ensures var s := ParseStage(stage.value).value;
      var t := db.tables.Get(s);
      var (resp, db') := UpdateReview(db, reviewId, stage, body);
      && reviewId in db.reviews
      && FirstIndex(t, reviewId).Some?
      && var i := FirstIndex(t, reviewId).value;
      && Slot(t, reviewId)[0] == t[i]
      && db'.tables.Get(s) == t[i := Rewrite(t[i], body)]
      && (forall st :: st != s ==> db'.tables.Get(st) == db.tables.Get(st))
      && db'.students == db.students && db'.staff == db.staff
      && db'.projects == db.projects && db'.reviews == db.reviews
      && resp == Response(200, UpdatedBody(db'.tables.Get(s)[i], UpdatedMessage(stage.value)))
  {
    var s := ParseStage(stage.value).value;
    var t := db.tables.Get(s);
    FirstOfSlot(t, reviewId);
    var i := FirstIndex(t, reviewId).value;
    assert UniqueIds(t);
    UpdateOnlyAt(t, i, body);
  }

  /** The body leaves the updated row in the review it was found in: it
      names no other review under "reviewId". */
  predicate KeepsReview(reviewId: Id, body: map<string, Value>)
  {
    "reviewId" in body && body["reviewId"].Str? ==> body["reviewId"].s == reviewId
  }

  // ---------------------------------------------------------------------
  // The handler as written, where the guard reads `reviewFields[stage]` off a
  // plain object and so also lets the inherited members of Object.prototype
  // through. Such a token then indexes the loaded review with a function
  // (or the prototype object), finds nothing, and the response is 404.

  /** The response of updateReview with the guard as written. A missing
      token, a token the lookup leaves undefined and a stage token take the
      same path as in the closed table; an inherited member passes the guard
      and ends in the 404. */
  function UpdateReviewAsWritten(db: Db, reviewId: Id, stage: Option<string>, body: map<string, Value>): (r: Response)
    ensures !Falsy(stage) && stage.value in PrototypeMembers ==> r == Fail(404, "Review stage not found")
    ensures Falsy(stage) || stage.value !in PrototypeMembers ==> r == UpdateReview(db, reviewId, stage, body).0
  {
    if !Falsy(stage) && PassesGuardAsWritten(stage.value) && stage.value !in StageTokens then
      Fail(404, "Review stage not found")
    else UpdateReview(db, reviewId, stage, body).0
  }

  /** The token "constructor" is not a stage, yet the guard as written does
      not answer "Invalid stage value" for it; the closed table does. */
  lemma ConstructorTokenAsWritten(db: Db, reviewId: Id, body: map<string, Value>)
    ensures UpdateReviewAsWritten(db, reviewId, Some("constructor"), body) == Fail(404, "Review stage not found")
    ensures UpdateReview(db, reviewId, Some("constructor"), body).0 == Fail(400, "Invalid stage value")
  {
    assert "constructor" in PrototypeMembers;
  }
}
