/** Invariants of the store that the handlers keep, over any sequence of
    requests, and round trips between the write and the read handlers. */
module Properties {
  import opened Common
  import opened Stages
  import opened StageTables
  import opened Database
  import opened Projects
  import opened Reviews

  /** No guide owns more than 12 projects. */
  ghost predicate CapacityRespected(db: Db)
  {
    forall g :: |ProjectsOf(db, g)| <= MaxProjectCount
  }

  /** No project has more than 2 students. */
  ghost predicate StudentsBounded(db: Db)
  {
    forall p :: p in db.projects ==> |StudentsOf(db, p)| <= MaxStudentsInProject
  }

  /** Every review has exactly one row in each of the six slots. */
  ghost predicate SixStages(db: Db)
  {
    forall r, st :: r in db.reviews ==> |Slot(db.tables.Get(st), r)| == 1
  }

  /** Every project has its review. */
  ghost predicate Reviewed(db: Db)
  {
    forall p :: p in db.projects ==> ReviewsOf(db, p) != {}
  }

  ghost predicate Healthy(db: Db)
  {
    Valid(db) && CapacityRespected(db) && StudentsBounded(db) && SixStages(db) && Reviewed(db)
  }

  /** A student's foreign key names one project, so a student is on at most
      one project in any store. */
  lemma OneProjectPerStudent(db: Db, s: Id, p1: Id, p2: Id)
    requires s in StudentsOf(db, p1) && s in StudentsOf(db, p2)
    ensures p1 == p2
  {
  }

  lemma {:induction false} DistinctBound(q: seq<Id>)
    ensures |IdSet(q)| <= |q|
  {
    if q != [] {
      DistinctBound(q[1..]);
      assert IdSet(q) == {q[0]} + IdSet(q[1..]);
    }
  }

  // ---------------------------------------------------------------------
  // The nested create

  /** Adding a project to the projects table adds it to its guide's
      projects and to no other guide's. */
  lemma ProjectsOfAdded(db: Db, db': Db, pid: Id, pr: Project, h: Id)
    requires db'.projects == db.projects[pid := pr] && pid !in db.projects
    ensures ProjectsOf(db', h) == if h == pr.staffId then ProjectsOf(db, h) + {pid} else ProjectsOf(db, h)
  {
  }

  lemma CreatedKeepsCapacity(db: Db, title: string, g: Id, sids: seq<Id>, ids: NewIds)
    requires CapacityRespected(db)
    requires |ProjectsOf(db, g)| < MaxProjectCount && ids.project !in db.projects
    ensures CapacityRespected(Created(db, title, g, sids, ids))
  {
    var db' := Created(db, title, g, sids, ids);
    assert db'.projects == db.projects[ids.project := Project(title, g)];
    forall h ensures |ProjectsOf(db', h)| <= MaxProjectCount {
      ProjectsOfAdded(db, db', ids.project, Project(title, g), h);
    }
  }

  lemma CreatedRowsValid(db: Db, title: string, g: Id, sids: seq<Id>, ids: NewIds)
    requires RowsValid(db) && Creatable(db, g, sids, ids)
    ensures RowsValid(Created(db, title, g, sids, ids))
  {
    var db' := Created(db, title, g, sids, ids);
    forall st ensures UniqueIds(db'.tables.Get(st)) {
      var t := db.tables.Get(st);
      assert db'.tables.Get(st) == t + [NewRecord(ids.records.Get(st), ids.review)];
      forall i | 0 <= i < |t| ensures t[i].id != ids.records.Get(st) {
        assert t[i] in t;
      }
    }
  }

  lemma CreatedValid(db: Db, title: string, g: Id, sids: seq<Id>, ids: NewIds)
    requires Valid(db) && Creatable(db, g, sids, ids)
    ensures Valid(Created(db, title, g, sids, ids))
  {
    CreatedRowsValid(db, title, g, sids, ids);
  }

  lemma CreatedKeepsHealthy(db: Db, title: string, g: Id, sids: seq<Id>, ids: NewIds)
    requires Healthy(db) && Creatable(db, g, sids, ids) && !AlreadyAssigned(db, sids)
    requires |ProjectsOf(db, g)| < MaxProjectCount && |sids| <= MaxStudentsInProject
    ensures Healthy(Created(db, title, g, sids, ids))
  {
    CreatedKeepsCapacity(db, title, g, sids, ids);
    CreatedValid(db, title, g, sids, ids);
    CreatedStudentsBounded(db, title, g, sids, ids);
    CreatedSixStages(db, title, g, sids, ids);
    CreatedReviewed(db, title, g, sids, ids);
  }

  lemma CreatedSixStages(db: Db, title: string, g: Id, sids: seq<Id>, ids: NewIds)
    requires Valid(db) && Creatable(db, g, sids, ids) && SixStages(db)
    ensures SixStages(Created(db, title, g, sids, ids))
  {
    CreatedReview(db, title, g, sids, ids);
  }

  lemma CreatedStudentsBounded(db: Db, title: string, g: Id, sids: seq<Id>, ids: NewIds)
    requires Valid(db) && Creatable(db, g, sids, ids) && !AlreadyAssigned(db, sids)
    requires StudentsBounded(db) && |sids| <= MaxStudentsInProject
    ensures StudentsBounded(Created(db, title, g, sids, ids))
  {
    var db' := Created(db, title, g, sids, ids);
    CreatedLinks(db, title, g, sids, ids);
    DistinctBound(sids);
    forall p | p in db'.projects ensures |StudentsOf(db', p)| <= MaxStudentsInProject {
      if p != ids.project {
        assert StudentsOf(db', p) == StudentsOf(db, p);
      }
    }
  }

  lemma CreatedReviewed(db: Db, title: string, g: Id, sids: seq<Id>, ids: NewIds)
    requires Valid(db) && Creatable(db, g, sids, ids) && Reviewed(db)
    ensures Reviewed(Created(db, title, g, sids, ids))
  {
    var db' := Created(db, title, g, sids, ids);
    CreatedReview(db, title, g, sids, ids);
    forall p | p in db'.projects && p != ids.project ensures ReviewsOf(db', p) != {} {
      var r :| r in ReviewsOf(db, p);
      assert r in ReviewsOf(db', p);
    }
  }

  // ---------------------------------------------------------------------
  // The cascading delete

  lemma RemovedRowsValid(db: Db, pid: Id)
    requires RowsValid(db)
    ensures RowsValid(Removed(db, pid))
  {
    var db' := Removed(db, pid);
    var rs := ReviewsOf(db, pid);
    forall st
      ensures UniqueIds(db'.tables.Get(st))
      ensures forall x :: x in db'.tables.Get(st) ==> x.reviewId in db'.reviews
    {
      RemovalKeepsRowsValid(db.tables.Get(st), rs, db.reviews.Keys);
    }
  }

  lemma RemovedOwnersValid(db: Db, pid: Id)
    requires ReviewOwnersValid(db)
    ensures ReviewOwnersValid(Removed(db, pid))
  {
  }

  lemma RemovedLinksValid(db: Db, pid: Id)
    requires StudentLinksValid(db) && GuidesValid(db)
    ensures StudentLinksValid(Removed(db, pid)) && GuidesValid(Removed(db, pid))
  {
  }

  lemma RemovedValid(db: Db, pid: Id)
    requires Valid(db)
    ensures Valid(Removed(db, pid))
  {
    RemovedRowsValid(db, pid);
    RemovedOwnersValid(db, pid);
    RemovedLinksValid(db, pid);
  }

  lemma RemovedKeepsCapacity(db: Db, pid: Id)
    requires CapacityRespected(db)
    ensures CapacityRespected(Removed(db, pid))
  {
    var db' := Removed(db, pid);
    forall g ensures |ProjectsOf(db', g)| <= MaxProjectCount {
      assert ProjectsOf(db', g) == ProjectsOf(db, g) - {pid};
    }
  }

  lemma RemovedStudentsBounded(db: Db, pid: Id)
    requires StudentsBounded(db) && pid in db.projects
    ensures StudentsBounded(Removed(db, pid))
  {
    DeleteSuccess(db, pid);
    assert Removed(db, pid) == Delete(db, pid).1;
  }

  lemma RemovedSixStages(db: Db, pid: Id)
    requires SixStages(db) && pid in db.projects
    ensures SixStages(Removed(db, pid))
  {
    DeleteSuccess(db, pid);
    assert Removed(db, pid) == Delete(db, pid).1;
  }

  lemma RemovedReviewed(db: Db, pid: Id)
    requires Reviewed(db) && pid in db.projects
    ensures Reviewed(Removed(db, pid))
  {
    var db' := Removed(db, pid);
    forall p | p in db'.projects ensures ReviewsOf(db', p) != {} {
      var r :| r in ReviewsOf(db, p);
      assert r in ReviewsOf(db', p);
    }
  }

  lemma RemovedKeepsHealthy(db: Db, pid: Id)
    requires Healthy(db) && pid in db.projects
    ensures Healthy(Removed(db, pid))
  {
    RemovedValid(db, pid);
    RemovedKeepsCapacity(db, pid);
    RemovedStudentsBounded(db, pid);
    RemovedSixStages(db, pid);
    RemovedReviewed(db, pid);
  }

  // ---------------------------------------------------------------------
  // The stage update

  /** An update the database accepts keeps the ids unique and every row
      owned by an existing review. */
  lemma UpdatedRowsValid(db: Db, s: Stage, i: nat, body: map<string, Value>)
    requires RowsValid(db) && i < |db.tables.Get(s)|
    requires Writable(db.tables.Get(s), db.tables.Get(s)[i], body, db.reviews.Keys)
    ensures RowsValid(db.(tables := db.tables.Set(s, UpdateById(db.tables.Get(s), db.tables.Get(s)[i].id, body))))
  {
    UpdateKeepsUniqueIds(db.tables.Get(s), i, body, db.reviews.Keys);
    UpdateKeepsOwners(db.tables.Get(s), i, body, db.reviews.Keys);
  }

  /** An update that leaves its row in its review keeps exactly one row per
      review and stage. */
  lemma UpdatedSixStages(db: Db, s: Stage, i: nat, body: map<string, Value>)
    requires SixStages(db) && RowsValid(db) && i < |db.tables.Get(s)|
    requires Rewrite(db.tables.Get(s)[i], body).reviewId == db.tables.Get(s)[i].reviewId
    ensures SixStages(db.(tables := db.tables.Set(s, UpdateById(db.tables.Get(s), db.tables.Get(s)[i].id, body))))
  {
    var t := db.tables.Get(s);
    var db' := db.(tables := db.tables.Set(s, UpdateById(t, t[i].id, body)));
    UpdateOnlyAt(t, i, body);
    forall r | r in db'.reviews ensures |Slot(db'.tables.Get(s), r)| == 1 {
      SlotLengthAt(t, i, Rewrite(t[i], body), r);
    }
  }

  /** A stage update writes the stage tables only, so what depends on the
      other tables of the store holds after it as before. */
  lemma TablesOnly(db: Db, db': Db)
    requires db' == db.(tables := db'.tables)
    ensures StudentLinksValid(db') == StudentLinksValid(db) && GuidesValid(db') == GuidesValid(db)
    ensures ReviewOwnersValid(db') == ReviewOwnersValid(db)
    ensures CapacityRespected(db') == CapacityRespected(db)
    ensures StudentsBounded(db') == StudentsBounded(db)
    ensures Reviewed(db') == Reviewed(db)
  {
    assert forall p :: ReviewsOf(db', p) == ReviewsOf(db, p);
    assert forall g :: ProjectsOf(db', g) == ProjectsOf(db, g);
    assert forall p :: StudentsOf(db', p) == StudentsOf(db, p);
  }

  /** An accepted update that leaves its row in its review keeps all of
      the invariants. */
  lemma UpdatedKeepsHealthy(db: Db, s: Stage, i: nat, body: map<string, Value>)
    requires Healthy(db) && i < |db.tables.Get(s)|
    requires Writable(db.tables.Get(s), db.tables.Get(s)[i], body, db.reviews.Keys)
    requires Rewrite(db.tables.Get(s)[i], body).reviewId == db.tables.Get(s)[i].reviewId
    ensures Healthy(db.(tables := db.tables.Set(s, UpdateById(db.tables.Get(s), db.tables.Get(s)[i].id, body))))
  {
    var t := db.tables.Get(s);
    var db' := db.(tables := db.tables.Set(s, UpdateById(t, t[i].id, body)));
    UpdatedRowsValid(db, s, i, body);
    UpdatedSixStages(db, s, i, body);
    TablesOnly(db, db');
  }

  /** The body is passed to the update as it is, so a request can move the
      row it updates into another review. From a store with one row per
      review and stage, that update succeeds, leaves its own review without
      a row in that stage (a later update of the stage answers 404) and gives
      the other review two rows there. */
  lemma UpdateCanMoveRow(db: Db, r1: Id, r2: Id, st: Stage, later: map<string, Value>)
    requires SixStages(db) && RowsValid(db) && r1 in db.reviews && r2 in db.reviews && r1 != r2
    ensures var (resp, db') := UpdateReview(db, r1, Some(Token(st)), map["reviewId" := Str(r2)]);
      && resp.status == 200
      && Slot(db'.tables.Get(st), r1) == []
      && |Slot(db'.tables.Get(st), r2)| == 2
      && !SixStages(db')
      && UpdateReview(db', r1, Some(Token(st)), later).0 == Fail(404, "Review stage not found")
  {
    var body := map["reviewId" := Str(r2)];
    var t := db.tables.Get(st);
    assert |Slot(t, r1)| == 1 && |Slot(t, r2)| == 1;
    TokensDistinct(st, st);
    FirstOfSlot(t, r1);
    var i := FirstIndex(t, r1).value;
    var y := Rewrite(t[i], body);
    assert Writable(t, t[i], body, db.reviews.Keys);
    UpdateOk(db, r1, Some(Token(st)), body);
    var db' := UpdateReview(db, r1, Some(Token(st)), body).1;
    assert db'.tables.Get(st) == t[i := y] by {
      UpdateOnlyAt(t, i, body);
    }
    MoveRow(t, i, y, r1, r2);
    assert r2 in db'.reviews;
  }

  // ---------------------------------------------------------------------
  // One request at a time

  /** Registration keeps every guide at 12 projects or fewer: it refuses a
      guide with 12 and otherwise adds one project. */
  lemma RegisterKeepsCapacity(db: Db, req: RegisterRequest, rejected: set<nat>, ids: NewIds)
    requires CapacityRespected(db)
    ensures CapacityRespected(Register(db, req, rejected, ids).1)
  {
    if Register(db, req, rejected, ids).0.status == 200 {
      RegisterOk(db, req, rejected, ids);
      CreatedKeepsCapacity(db, req.title, req.staffId.value, req.studentIds.value, ids);
    }
  }

  lemma RegisterKeepsHealthy(db: Db, req: RegisterRequest, rejected: set<nat>, ids: NewIds)
    requires Healthy(db)
    ensures Healthy(Register(db, req, rejected, ids).1)
  {
    if Register(db, req, rejected, ids).0.status == 200 {
      RegisterOk(db, req, rejected, ids);
      CreatedKeepsHealthy(db, req.title, req.staffId.value, req.studentIds.value, ids);
    }
  }

  lemma DeleteKeepsHealthy(db: Db, pid: Id)
    requires Healthy(db)
    ensures Healthy(Delete(db, pid).1)
  {
    if pid in db.projects {
      RemovedKeepsHealthy(db, pid);
    }
  }

  /** An update request whose body leaves the row in its review keeps all
      of the invariants (UpdateCanMoveRow shows one that does not). */
  lemma UpdateKeepsHealthy(db: Db, reviewId: Id, stage: Option<string>, body: map<string, Value>)
    requires Healthy(db) && KeepsReview(reviewId, body)
    ensures Healthy(UpdateReview(db, reviewId, stage, body).1)
  {
    if UpdateReview(db, reviewId, stage, body).0.status == 200 {
      UpdateOk(db, reviewId, stage, body);
      var s := ParseStage(stage.value).value;
      var t := db.tables.Get(s);
      FirstOfSlot(t, reviewId);
      var i := FirstIndex(t, reviewId).value;
      UpdatedKeepsHealthy(db, s, i, body);
    }
  }

  // ---------------------------------------------------------------------
  // Any sequence of requests

  datatype Request =
    | RegisterOp(req: RegisterRequest, rejected: set<nat>, ids: NewIds)
    | DeleteOp(projectId: Id)
    | UpdateOp(reviewId: Id, stage: Option<string>, body: map<string, Value>)

  /** The store after one write request. */
  function Apply(db: Db, op: Request): Db
  {
    match op
    case RegisterOp(req, rejected, ids) => Register(db, req, rejected, ids).1
    case DeleteOp(pid) => Delete(db, pid).1
    case UpdateOp(rid, stage, body) => UpdateReview(db, rid, stage, body).1
  }

  /** The store after the requests, handled one after the other. */
  function Run(db: Db, ops: seq<Request>): Db
    decreases |ops|
  {
    if ops == [] then db else Run(Apply(db, ops[0]), ops[1..])
  }

  /** From a store with no guide over capacity, no sequence of requests puts
      a guide over 12 projects. */
  lemma {:induction false} RunKeepsCapacity(db: Db, ops: seq<Request>)
    requires CapacityRespected(db)
    ensures CapacityRespected(Run(db, ops))
    decreases |ops|
  {
    if ops != [] {
      match ops[0] {
        case RegisterOp(req, rejected, ids) =>
          RegisterKeepsCapacity(db, req, rejected, ids);
        case DeleteOp(pid) =>
          if pid in db.projects {
            RemovedKeepsCapacity(db, pid);
          }
        case UpdateOp(rid, stage, body) =>
          var db' := UpdateReview(db, rid, stage, body).1;
          if UpdateReview(db, rid, stage, body).0.status == 200 {
            TablesOnly(db, db');
          }
      }
      RunKeepsCapacity(Apply(db, ops[0]), ops[1..]);
    }
  }

  /** No update among the requests moves its row to another review. */
  predicate NoRowMoves(ops: seq<Request>)
  {
    forall k :: 0 <= k < |ops| && ops[k].UpdateOp? ==> KeepsReview(ops[k].reviewId, ops[k].body)
  }

  /** From a healthy store, every sequence of requests leaves a healthy
      store: referential integrity, at most 12 projects per guide, at most 2
      students per project, one review per project and exactly one row per
      stage slot of each review. */
  lemma {:induction false} RunKeepsHealthy(db: Db, ops: seq<Request>)
    requires Healthy(db) && NoRowMoves(ops)
    ensures Healthy(Run(db, ops))
    decreases |ops|
  {
    if ops != [] {
      match ops[0] {
        case RegisterOp(req, rejected, ids) => RegisterKeepsHealthy(db, req, rejected, ids);
        case DeleteOp(pid) => DeleteKeepsHealthy(db, pid);
        case UpdateOp(rid, stage, body) => UpdateKeepsHealthy(db, rid, stage, body);
      }
      assert NoRowMoves(ops[1..]) by {
        forall k | 0 <= k < |ops[1..]| ensures ops[1..][k] == ops[k + 1] {}
      }
      RunKeepsHealthy(Apply(db, ops[0]), ops[1..]);
    }
  }

  // ---------------------------------------------------------------------
  // Round trips

  /** What a read of one project gives, from the facts about the store the
      view is built from. */
  lemma ViewFacts(db: Db, pid: Id, title: string, g: Id, studs: set<Id>, rid: Id,
                  rows: PerStage<StageRecord>)
    requires pid in db.projects && db.projects[pid] == Project(title, g)
    requires StudentsOf(db, pid) == studs && ReviewsOf(db, pid) == {rid}
    requires forall st :: Slot(db.tables.Get(st), rid) == [rows.Get(st)]
    ensures var v := View(db, pid, AllStages, true);
      && v.title == title && v.staffId == g && v.students == Some(studs)
      && v.reviews.Keys == {rid}
      && forall st :: st in v.reviews[rid] && v.reviews[rid][st] == [rows.Get(st)]
  {
    forall st ensures st in View(db, pid, AllStages, true).reviews[rid] &&
                      View(db, pid, AllStages, true).reviews[rid][st] == [rows.Get(st)] {
      ViewSlot(db, pid, rid, st, true);
    }
  }

  /** The default rows a registration creates, one per stage. */
  function DefaultRows(ids: NewIds): (rows: PerStage<StageRecord>)
    ensures forall st :: rows.Get(st) == NewRecord(ids.records.Get(st), ids.review)
  {
    PerStage(NewRecord(ids.records.zero, ids.review), NewRecord(ids.records.one, ids.review),
             NewRecord(ids.records.two, ids.review), NewRecord(ids.records.three, ids.review),
             NewRecord(ids.records.model, ids.review), NewRecord(ids.records.final, ids.review))
  }

  /** The project the nested create makes, as a read handler shows it. */
  lemma CreatedThenRead(db: Db, title: string, g: Id, sids: seq<Id>, ids: NewIds)
    requires Valid(db) && Creatable(db, g, sids, ids) && !AlreadyAssigned(db, sids)
    ensures var db' := Created(db, title, g, sids, ids);
      var v := View(db', ids.project, AllStages, true);
      && v.title == title && v.staffId == g
      && v.students == Some(IdSet(sids))
      && v.reviews.Keys == {ids.review}
      && forall st :: st in v.reviews[ids.review] && v.reviews[ids.review][st] == [NewRecord(ids.records.Get(st), ids.review)]
  {
    var db' := Created(db, title, g, sids, ids);
    var rows := DefaultRows(ids);
    assert StudentsOf(db', ids.project) == IdSet(sids) by {
      CreatedLinks(db, title, g, sids, ids);
    }
    assert ReviewsOf(db', ids.project) == {ids.review}
        && forall st :: Slot(db'.tables.Get(st), ids.review) == [rows.Get(st)] by {
      CreatedReview(db, title, g, sids, ids);
    }
    ViewFacts(db', ids.project, title, g, IdSet(sids), ids.review, rows);
  }

  /** Reading a freshly registered project back by id gives the project the
      registration returned, now with its students: the given title and
      guide, exactly the requested students, and one review whose six slots
      each hold one default row of that review. */
  lemma RegisterThenRead(db: Db, req: RegisterRequest, rejected: set<nat>, ids: NewIds)
    requires Valid(db)
    requires Register(db, req, rejected, ids).0.status == 200
    ensures var (resp, db') := Register(db, req, rejected, ids);
      var read := GetSingleProject(db', ids.project);
      && read.status == 200
      && read.body == SingleProject(ids.project, resp.body.project.(students := Some(IdSet(req.studentIds.value))))
      && read.body.project.title == req.title
      && read.body.project.staffId == req.staffId.value
      && read.body.project.students == Some(IdSet(req.studentIds.value))
      && read.body.project.reviews.Keys == {ids.review}
      && forall st :: st in read.body.project.reviews[ids.review] &&
                      read.body.project.reviews[ids.review][st] == [NewRecord(ids.records.Get(st), ids.review)]
  {
    RegisterOk(db, req, rejected, ids);
    var db' := Created(db, req.title, req.staffId.value, req.studentIds.value, ids);
    CreatedThenRead(db, req.title, req.staffId.value, req.studentIds.value, ids);
    ViewWithStudents(db', ids.project, AllStages);
  }

  /** Every stage of the review the nested create makes can be updated,
      exactly when the database accepts the body's write of its one row. */
  lemma CreatedThenUpdate(db: Db, title: string, g: Id, sids: seq<Id>, ids: NewIds,
                          st: Stage, body: map<string, Value>)
    requires Valid(db) && Creatable(db, g, sids, ids)
    ensures var db' := Created(db, title, g, sids, ids);
      UpdateReview(db', ids.review, Some(Token(st)), body).0.status == 200 <==>
        Writable(db'.tables.Get(st), NewRecord(ids.records.Get(st), ids.review), body, db'.reviews.Keys)
  {
    var db' := Created(db, title, g, sids, ids);
    var x := NewRecord(ids.records.Get(st), ids.review);
    assert Slot(db'.tables.Get(st), ids.review) == [x] by {
      CreatedSlots(db, title, g, sids, ids, st);
    }
    assert ids.review in db'.reviews;
    TokensDistinct(st, st);
    assert RequestedSlot(db', ids.review, Some(Token(st))) == [x];
  }

  /** Every stage of a freshly registered project's review can be updated,
      exactly when the database accepts the body's write of its one row. */
  lemma RegisterThenUpdate(db: Db, req: RegisterRequest, rejected: set<nat>, ids: NewIds,
                           st: Stage, body: map<string, Value>)
    requires Valid(db)
    requires Register(db, req, rejected, ids).0.status == 200
    ensures var db' := Register(db, req, rejected, ids).1;
      UpdateReview(db', ids.review, Some(Token(st)), body).0.status == 200 <==>
        Writable(db'.tables.Get(st), NewRecord(ids.records.Get(st), ids.review), body, db'.reviews.Keys)
  {
    RegisterOk(db, req, rejected, ids);
    CreatedThenUpdate(db, req.title, req.staffId.value, req.studentIds.value, ids, st, body);
  }

  /** After a delete, the project cannot be read, and its review has no stage
      rows left and can no longer be updated. */
  lemma DeleteThenRead(db: Db, pid: Id, stage: Option<string>, body: map<string, Value>)
    requires pid in db.projects
    ensures var db' := Delete(db, pid).1;
      && GetSingleProject(db', pid) == Fail(404, "Project not found")
      && forall r :: r in ReviewsOf(db, pid) ==>
           && UpdateReview(db', r, stage, body).0.status != 200
           && forall st :: Slot(db'.tables.Get(st), r) == []
  {
    var db' := Delete(db, pid).1;
    DeleteSuccess(db, pid);
    forall r, st | r in ReviewsOf(db, pid) ensures Slot(db'.tables.Get(st), r) == [] {
      EmptySlot(db'.tables.Get(st), r);
    }
  }
}
