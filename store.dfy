/** The store as the handlers use it: the rows of every table, updated in
    place by three request handlers. Each handler is proved against the
    function on store snapshots that specifies it, and keeps the store's
    invariant. */
module Store {
  import opened Common
  import opened Stages
  import opened StageTables
  import opened Database
  import opened Projects
  import opened Reviews
  import Properties

  class Store {
    var students: map<Id, Student>
    var staff: set<Id>
    var projects: map<Id, Project>
    var reviews: map<Id, Review>
    var zero: Table
    var one: Table
    var two: Table
    var three: Table
    var model: Table
    var final: Table

    /** The rows currently held, as a value. */
    function Snapshot(): Db
      reads this
    {
      Db(students, staff, projects, reviews, PerStage(zero, one, two, three, model, final))
    }

    constructor (db: Db)
      ensures Snapshot() == db
    {
      students, staff, projects, reviews := db.students, db.staff, db.projects, db.reviews;
      zero, one, two, three := db.tables.zero, db.tables.one, db.tables.two, db.tables.three;
      model, final := db.tables.model, db.tables.final;
    }

    /** The table of one stage. */
    function TableOf(s: Stage): (t: Table)
      reads this
      ensures t == Snapshot().tables.Get(s)
    {
      match s
      case Zero => zero
      case One => one
      case Two => two
      case Three => three
      case Model => model
      case Final => final
    }

    /** registerProject: the checks one after the other, each returning
        early, then the nested create of the project, its review and the
        six stage rows. */
    method RegisterProject(req: RegisterRequest, rejected: set<nat>, ids: NewIds) returns (resp: Response)
      modifies this
      ensures (resp, Snapshot()) == Register(old(Snapshot()), req, rejected, ids)
      ensures Properties.Healthy(old(Snapshot())) ==> Properties.Healthy(Snapshot())
    {
      ghost var db := Snapshot();
      if Falsy(req.staffId) {
        return Fail(400, "Staff ID is required");
      }
      var staffId := req.staffId.value;
      var staffProjectsCount := |ProjectsOf(Snapshot(), staffId)|;
      if staffProjectsCount >= MaxProjectCount {
        return Fail(400, "The selected guide already has 12 projects");
      }
      if req.studentIds.None? {
        return Response(500, ThrownError);
      }
      var studentIds := req.studentIds.value;
      if |studentIds| > MaxStudentsInProject {
        return Fail(400, "Only 2 students are allowed per project");
      }
      var foundStudents := FoundStudents(Lookups(Snapshot(), studentIds, rejected));
      if |foundStudents| != |studentIds| {
        return Fail(404, "One or more students not found");
      }
      if AlreadyAssigned(Snapshot(), studentIds) {
        return Fail(400, "The selected student is already assigned to a project");
      }
      if !Creatable(Snapshot(), staffId, studentIds, ids) {
        return Response(500, ThrownError);
      }
      resp := Create(req.title, staffId, studentIds, ids);
      if Properties.Healthy(db) {
        Properties.RegisterKeepsHealthy(db, req, rejected, ids);
      }
    }

    /** The nested create of registerProject, once every check has passed:
        the project, its review and one default row per stage, all at once. */
    method Create(title: string, staffId: Id, studentIds: seq<Id>, ids: NewIds) returns (resp: Response)
      modifies this
      ensures Snapshot() == Created(old(Snapshot()), title, staffId, studentIds, ids)
      ensures resp == Response(200, ProjectBody(ids.project, View(Snapshot(), ids.project, AllStages, false)))
    {
      ghost var db := Snapshot();
      var pid, rid := ids.project, ids.review;
      students := Linked(students, studentIds, pid);
      projects := projects[pid := Project(title, staffId)];
      reviews := reviews[rid := Review(pid)];
      WriteTables(AppendRecords(Snapshot().tables, ids.records, rid));
      assert Snapshot() == Db(Linked(db.students, studentIds, pid), db.staff,
                              db.projects[pid := Project(title, staffId)], db.reviews[rid := Review(pid)],
                              AppendRecords(db.tables, ids.records, rid));
      resp := Response(200, ProjectBody(pid, View(Snapshot(), pid, AllStages, false)));
    }

    /** deleteProject: 404 for an unknown project; otherwise the transaction
        that removes the review's stage rows and the review, then the delete
        of the project itself. */
    method DeleteProject(projectId: Id) returns (resp: Response)
      modifies this
      ensures (resp, Snapshot()) == Delete(old(Snapshot()), projectId)
      ensures Properties.Healthy(old(Snapshot())) ==> Properties.Healthy(Snapshot())
    {
      ghost var db := Snapshot();
      if projectId !in projects {
        return Response(404, PlainText("Project not found."));
      }
      var found := ReviewsOf(Snapshot(), projectId);
      if found != {} {
        DeleteReviews(found);
      } else {
        forall st ensures WithoutReviews(db.tables.Get(st), found) == db.tables.Get(st) {
          WithoutNoReviews(db.tables.Get(st));
        }
        PerStageEq(RemoveRows(db.tables, found), db.tables);
        assert db.reviews - found == db.reviews;
      }
      students := Unlinked(students, projectId);
      projects := projects - {projectId};
      resp := Response(200, MessageBody("Project deleted successfully"));
      if Properties.Healthy(db) {
        Properties.DeleteKeepsHealthy(db, projectId);
      }
    }

    /** The transaction of deleteProject: the six `deleteMany` on the stage
        tables and the delete of the reviews themselves. */
    method DeleteReviews(found: set<Id>)
      modifies this
      ensures Snapshot() == old(Snapshot()).(reviews := old(reviews) - found,
                                             tables := RemoveRows(old(Snapshot()).tables, found))
    {
      WriteTables(RemoveRows(Snapshot().tables, found));
      reviews := reviews - found;
    }

    /** Stores six stage tables at once. */
    method WriteTables(t: Tables)
      modifies this
      ensures Snapshot() == old(Snapshot()).(tables := t)
    {
      zero, one, two, three, model, final := t.zero, t.one, t.two, t.three, t.model, t.final;
    }

    /** updateReview: the two checks on the stage token, the load of the
        review, then the update by id of the first row of the requested
        slot, through the update function the token selects. The store stays
        healthy when the body leaves that row in its review. */
    method UpdateReview(reviewId: Id, stage: Option<string>, body: map<string, Value>) returns (resp: Response)
      modifies this
      ensures (resp, Snapshot()) == Reviews.UpdateReview(old(Snapshot()), reviewId, stage, body)
      ensures Properties.Healthy(old(Snapshot())) && KeepsReview(reviewId, body) ==> Properties.Healthy(Snapshot())
    {
      ghost var db := Snapshot();
      if Falsy(stage) {
        return Fail(400, "Stage query parameter is required");
      }
      var reviewField := ParseStage(stage.value);
      if reviewField.None? {
        return Fail(400, "Invalid stage value");
      }
      if reviewId !in reviews {
        return Fail(404, "Review stage not found");
      }
      var slot := Slot(TableOf(reviewField.value), reviewId);
      if slot == [] {
        return Fail(404, "Review stage not found");
      }
      var stageReviewId := slot[0].id;
      var target := UpdateTarget(stage.value).value;
      if !Writable(TableOf(target), slot[0], body, reviews.Keys) {
        return Fail(500, "Internal Server Error");
      }
      UpdateOk(db, reviewId, stage, body);
      UpdateStage(target, stageReviewId, body);
      var updateData := Rewrite(slot[0], body);
      resp := Response(200, UpdatedBody(updateData, UpdatedMessage(stage.value)));
      if Properties.Healthy(db) && KeepsReview(reviewId, body) {
        Properties.UpdateKeepsHealthy(db, reviewId, stage, body);
      }
    }

    /** `updateFunctions[stage]({where: {id}, data: body})`: the update
        function of the selected stage, and only that one, runs. */
    method UpdateStage(s: Stage, id: Id, body: map<string, Value>)
      modifies this
      ensures Snapshot() ==
                old(Snapshot()).(tables := old(Snapshot()).tables.Set(s, UpdateById(old(TableOf(s)), id, body)))
    {
      match s {
        case Zero => zero := UpdateById(zero, id, body);
        case One => one := UpdateById(one, id, body);
        case Two => two := UpdateById(two, id, body);
        case Three => three := UpdateById(three, id, body);
        case Model => model := UpdateById(model, id, body);
        case Final => final := UpdateById(final, id, body);
      }
    }
  }
}
