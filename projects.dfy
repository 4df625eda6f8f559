/** The project handlers of project.js: registration, the read paths and the
    cascading delete, each as a function from the store (and the request) to
    the response and the new store. */
module Projects {
  import opened Common
  import opened Stages
  import opened StageTables
  import opened Database

  const MaxStudentsInProject: nat := 2
  const MaxProjectCount: nat := 12

  // ---------------------------------------------------------------------
  // registerProject

  /** The JSON body of a registration; `studentIds` is None when the field
      is absent from the body. */
  datatype RegisterRequest = RegisterRequest(studentIds: Option<seq<Id>>, staffId: Option<Id>, title: string)

  /** The identifiers the database generates for the rows of one nested
      create: the project, its review and the six stage rows. */
  datatype NewIds = NewIds(project: Id, review: Id, records: PerStage<Id>)

  /** The settled outcome of one `student.findFirst({where: {id}})`: a
      rejection, or a fulfilment with the row or null. */
  datatype Lookup = Rejected | Fulfilled(found: Option<Student>)

  /** `Promise.allSettled` over the student lookups. The lookups at the
      positions in `rejected` reject (a storage failure); every other lookup
      fulfils with the student row, or with null for an unknown id. */
  function Lookups(db: Db, ids: seq<Id>, rejected: set<nat>): (ls: seq<Lookup>)
    ensures |ls| == |ids|
    ensures forall i :: 0 <= i < |ids| ==> (ls[i].Rejected? <==> i in rejected)
    ensures forall i :: 0 <= i < |ids| && i !in rejected ==> (ls[i].found.Some? <==> ids[i] in db.students)
    ensures forall i :: 0 <= i < |ids| && i !in rejected && ids[i] in db.students ==>
              ls[i].found == Some(db.students[ids[i]])
  {
    seq(|ids|, i requires 0 <= i < |ids| =>
      if i in rejected then Rejected
      else Fulfilled(if ids[i] in db.students then Some(db.students[ids[i]]) else None))
  }

  /** `filter(status === "fulfilled").map(value)`: the values of the
      fulfilled lookups, nulls included. It is shorter than the lookups
      exactly when some lookup rejected. */
  function FoundStudents(ls: seq<Lookup>): (found: seq<Option<Student>>)
    ensures |found| <= |ls|
    ensures |found| == |ls| <==> forall i :: 0 <= i < |ls| ==> ls[i].Fulfilled?
    ensures forall v :: v in found ==> Fulfilled(v) in ls
  {
    if ls == [] then []
    else if ls[0].Fulfilled? then [ls[0].found] + FoundStudents(ls[1..])
    else FoundStudents(ls[1..])
  }

  /** The `project.findMany` over projects having one of the requested
      students is non-empty: some project lists one of the requested ids
      among its students. */
  predicate AlreadyAssigned(db: Db, ids: seq<Id>): (r: bool)
    ensures r <==> exists p :: p in db.projects && exists s :: s in StudentsOf(db, p) && s in ids
  {
    AssignedSomewhere(db, ids);
    exists i :: 0 <= i < |ids| && ids[i] in db.students && db.students[ids[i]].projectId.Some? &&
      db.students[ids[i]].projectId.value in db.projects
  }

  /** A requested student linked to an existing project is a student that
      project lists, and the other way round. */
  lemma AssignedSomewhere(db: Db, ids: seq<Id>)
    ensures (exists i :: 0 <= i < |ids| && ids[i] in db.students && db.students[ids[i]].projectId.Some? &&
               db.students[ids[i]].projectId.value in db.projects)
        <==> exists p :: p in db.projects && exists s :: s in StudentsOf(db, p) && s in ids
  {
    if i :| 0 <= i < |ids| && ids[i] in db.students && db.students[ids[i]].projectId.Some? &&
            db.students[ids[i]].projectId.value in db.projects {
      var p := db.students[ids[i]].projectId.value;
      assert ids[i] in StudentsOf(db, p);
    }
    if p :| p in db.projects && exists s :: s in StudentsOf(db, p) && s in ids {
      var s :| s in StudentsOf(db, p) && s in ids;
      var i :| 0 <= i < |ids| && ids[i] == s;
      assert ids[i] in db.students && db.students[ids[i]].projectId == Some(p);
    }
  }

  /** The nested create succeeds: every `connect` finds its row and every
      generated id is unused in its table. */
  predicate Creatable(db: Db, staffId: Id, sids: seq<Id>, ids: NewIds): (r: bool)
    ensures r <==> && IdSet(sids) <= db.students.Keys && staffId in db.staff
                   && ids.project !in db.projects && ids.review !in db.reviews
                   && forall st, x :: x in db.tables.Get(st) ==> x.id != ids.records.Get(st)
  {
    && (forall i :: 0 <= i < |sids| ==> sids[i] in db.students)
    && staffId in db.staff
    && ids.project !in db.projects
    && ids.review !in db.reviews
    && (forall st :: ids.records.Get(st) !in IdsOf(db.tables.Get(st)))
  }

  /** A stage row created with `create: {}`: it carries the generated id
      and the new review's id, and every content column is left at its
      default, so a later update's content fields are exactly the body's. */
  function NewRecord(id: Id, rid: Id): (x: StageRecord)
    ensures x.id == id && x.reviewId == rid
    ensures forall body :: Rewrite(x, body).content == ContentOf(body)
  {
    StageRecord(id, rid, map[])
  }

  /** Each stage table with one new default row for review `rid` appended. */
  function AppendRecords(tables: Tables, ids: PerStage<Id>, rid: Id): (r: Tables)
    ensures forall st :: r.Get(st) == tables.Get(st) + [NewRecord(ids.Get(st), rid)]
  {
    PerStage(
      tables.zero + [NewRecord(ids.zero, rid)],
      tables.one + [NewRecord(ids.one, rid)],
      tables.two + [NewRecord(ids.two, rid)],
      tables.three + [NewRecord(ids.three, rid)],
      tables.model + [NewRecord(ids.model, rid)],
      tables.final + [NewRecord(ids.final, rid)])
  }

  /** The students table after `connect`: the listed students point to the
      project `pid`. */
  function Linked(students: map<Id, Student>, sids: seq<Id>, pid: Id): (r: map<Id, Student>)
    ensures r.Keys == students.Keys
    ensures forall s :: s in r && s in sids ==> r[s] == Student(Some(pid))
    ensures forall s :: s in r && s !in sids ==> r[s] == students[s]
  {
    map s | s in students :: if s in sids then Student(Some(pid)) else students[s]
  }

  /** The store after the nested create of project, review and six rows. */
  function Created(db: Db, title: string, staffId: Id, sids: seq<Id>, ids: NewIds): (r: Db)
    ensures r.staff == db.staff && r.students.Keys == db.students.Keys
    ensures r.projects.Keys == db.projects.Keys + {ids.project} && r.projects[ids.project] == Project(title, staffId)
    ensures r.reviews.Keys == db.reviews.Keys + {ids.review} && r.reviews[ids.review] == Review(ids.project)
    ensures forall st :: |r.tables.Get(st)| == |db.tables.Get(st)| + 1
  {
    Db(
      Linked(db.students, sids, ids.project),
      db.staff,
      db.projects[ids.project := Project(title, staffId)],
      db.reviews[ids.review := Review(ids.project)],
      AppendRecords(db.tables, ids.records, ids.review))
  }

  /** registerProject: a fail-fast chain of checks, then one all-or-nothing
      create. Every response other than 200 leaves the store as it was. */
  function Register(db: Db, req: RegisterRequest, rejected: set<nat>, ids: NewIds): (out: (Response, Db))
    ensures out.0.status in {200, 400, 404, 500}
    ensures out.0.status != 200 ==> out.1 == db
    ensures out.0.status == 200 ==>
              && ids.project in out.1.projects
              && out.0.body.ProjectBody? && out.0.body.id == ids.project
  {
    if Falsy(req.staffId) then (Fail(400, "Staff ID is required"), db)
    else
      var staffId := req.staffId.value;
      if |ProjectsOf(db, staffId)| >= MaxProjectCount then
        (Fail(400, "The selected guide already has 12 projects"), db)
      else if req.studentIds.None? then
        // `studentIds.length` on an absent field throws a TypeError
        (Response(500, ThrownError), db)
      else
        var sids := req.studentIds.value;
        if |sids| > MaxStudentsInProject then
          (Fail(400, "Only 2 students are allowed per project"), db)
        else if |FoundStudents(Lookups(db, sids, rejected))| != |sids| then
          (Fail(404, "One or more students not found"), db)
        else if AlreadyAssigned(db, sids) then
          (Fail(400, "The selected student is already assigned to a project"), db)
        else if !Creatable(db, staffId, sids, ids) then
          (Response(500, ThrownError), db)
        else
          var db' := Created(db, req.title, staffId, sids, ids);
          (Response(200, ProjectBody(ids.project, View(db', ids.project, AllStages, false))), db')
  }

  /** A missing or empty guide id is refused first. */
  lemma RegisterNeedsStaffId(db: Db, req: RegisterRequest, rejected: set<nat>, ids: NewIds)
    requires Falsy(req.staffId)
    ensures Register(db, req, rejected, ids) == (Fail(400, "Staff ID is required"), db)
  {
  }

  /** A guide who already owns 12 projects gets no further project. */
  lemma RegisterGuideFull(db: Db, req: RegisterRequest, rejected: set<nat>, ids: NewIds)
    requires !Falsy(req.staffId)
    requires |ProjectsOf(db, req.staffId.value)| >= MaxProjectCount
    ensures Register(db, req, rejected, ids) == (Fail(400, "The selected guide already has 12 projects"), db)
  {
  }

  /** More than two students are refused after the capacity check and before
      any lookup: the outcome does not depend on the lookups at all. */
  lemma RegisterTooManyStudents(db: Db, req: RegisterRequest, rejected1: set<nat>, rejected2: set<nat>, ids: NewIds)
    requires !Falsy(req.staffId) && |ProjectsOf(db, req.staffId.value)| < MaxProjectCount
    requires req.studentIds.Some? && |req.studentIds.value| > MaxStudentsInProject
    ensures Register(db, req, rejected1, ids) == (Fail(400, "Only 2 students are allowed per project"), db)
    ensures Register(db, req, rejected1, ids) == Register(db, req, rejected2, ids)
  {
  }

  /** The checks before the lookups are passed. */
  predicate PassesPreLookupChecks(db: Db, req: RegisterRequest)
  {
    && !Falsy(req.staffId)
    && |ProjectsOf(db, req.staffId.value)| < MaxProjectCount
    && req.studentIds.Some?
    && |req.studentIds.value| <= MaxStudentsInProject
  }

  /** A rejected lookup gives 404 and changes nothing. */
  lemma RegisterRejectedLookup(db: Db, req: RegisterRequest, rejected: set<nat>, ids: NewIds, i: nat)
    requires PassesPreLookupChecks(db, req)
    requires i < |req.studentIds.value| && i in rejected
    ensures Register(db, req, rejected, ids) == (Fail(404, "One or more students not found"), db)
  {
    var ls := Lookups(db, req.studentIds.value, rejected);
    assert !ls[i].Fulfilled?;
  }

  /** An unknown student id is not caught by the 404 check (its lookup
      fulfils with null): the request reaches the create, whose `connect`
      throws, and the response is 500 with the store unchanged. */
  lemma RegisterUnknownStudent(db: Db, req: RegisterRequest, rejected: set<nat>, ids: NewIds, i: nat)
    requires PassesPreLookupChecks(db, req)
    requires forall k :: k in rejected ==> k >= |req.studentIds.value|
    requires !AlreadyAssigned(db, req.studentIds.value)
    requires i < |req.studentIds.value| && req.studentIds.value[i] !in db.students
    ensures Register(db, req, rejected, ids) == (Response(500, ThrownError), db)
  {
    var ls := Lookups(db, req.studentIds.value, rejected);
    assert ls[i] == Fulfilled(None);
  }

  /** A requested student already on a project makes registration fail with
      400, whatever the other students. */
  lemma RegisterStudentTaken(db: Db, req: RegisterRequest, rejected: set<nat>, ids: NewIds, i: nat)
    requires PassesPreLookupChecks(db, req)
    requires forall k :: k in rejected ==> k >= |req.studentIds.value|
    requires i < |req.studentIds.value|
    requires var s := req.studentIds.value[i];
             s in db.students && db.students[s].projectId.Some? && db.students[s].projectId.value in db.projects
    ensures Register(db, req, rejected, ids) == (Fail(400, "The selected student is already assigned to a project"), db)
  {
  }

  /** Registration succeeds exactly when every check of the chain passes and
      the create can be carried out. */
  lemma RegisterAccepted(db: Db, req: RegisterRequest, rejected: set<nat>, ids: NewIds)
    ensures Register(db, req, rejected, ids).0.status == 200 <==>
              && PassesPreLookupChecks(db, req)
              && (forall k :: k in rejected ==> k >= |req.studentIds.value|)
              && !AlreadyAssigned(db, req.studentIds.value)
              && Creatable(db, req.staffId.value, req.studentIds.value, ids)
  {
    if PassesPreLookupChecks(db, req) {
      AllFulfilled(db, req.studentIds.value, rejected);
    }
  }

  /** Every lookup fulfils exactly when none of the rejected positions is a
      position of the request. */
  lemma AllFulfilled(db: Db, sids: seq<Id>, rejected: set<nat>)
    ensures |FoundStudents(Lookups(db, sids, rejected))| == |sids| <==> forall k :: k in rejected ==> k >= |sids|
  {
    var ls := Lookups(db, sids, rejected);
    if k :| k in rejected && k < |sids| {
      assert !ls[k].Fulfilled?;
    }
  }

  /** The students and projects after the nested create. */
  lemma CreatedLinks(db: Db, title: string, g: Id, sids: seq<Id>, ids: NewIds)
    requires Valid(db) && Creatable(db, g, sids, ids) && !AlreadyAssigned(db, sids)
    ensures var db' := Created(db, title, g, sids, ids);
      && StudentsOf(db', ids.project) == IdSet(sids)
      && (forall p :: p in db.projects ==> StudentsOf(db', p) == StudentsOf(db, p))
  {
    var db' := Created(db, title, g, sids, ids);
    forall s | s in db.students && s !in sids && db.students[s].projectId.Some?
      ensures db.students[s].projectId.value != ids.project
    {
    }
    forall i | 0 <= i < |sids| ensures db.students[sids[i]].projectId.None? {
    }
    assert StudentsOf(db', ids.project) == IdSet(sids);
  }

  /** The stage tables after the nested create: the new review has exactly
      its one default row per stage, the slots of existing reviews and the
      existing rows are as before. */
  lemma CreatedSlots(db: Db, title: string, g: Id, sids: seq<Id>, ids: NewIds, st: Stage)
    requires Valid(db) && Creatable(db, g, sids, ids)
    ensures var t' := Created(db, title, g, sids, ids).tables.Get(st);
      && Slot(t', ids.review) == [NewRecord(ids.records.Get(st), ids.review)]
      && (forall r :: r in db.reviews ==> Slot(t', r) == Slot(db.tables.Get(st), r))
      && t'[..|db.tables.Get(st)|] == db.tables.Get(st)
  {
    var t := db.tables.Get(st);
    var x := NewRecord(ids.records.Get(st), ids.review);
    assert Created(db, title, g, sids, ids).tables.Get(st) == t + [x];
    SlotAppend(t, x, ids.review);
    EmptySlot(t, ids.review);
    forall r | r in db.reviews ensures Slot(t + [x], r) == Slot(t, r) {
      SlotAppend(t, x, r);
    }
    assert (t + [x])[..|t|] == t;
  }

  /** A successful registration passed every check and its new store is the
      nested create's. */
  lemma RegisterOk(db: Db, req: RegisterRequest, rejected: set<nat>, ids: NewIds)
    requires Register(db, req, rejected, ids).0.status == 200
    ensures PassesPreLookupChecks(db, req)
    ensures !AlreadyAssigned(db, req.studentIds.value)
    ensures Creatable(db, req.staffId.value, req.studentIds.value, ids)
    ensures Register(db, req, rejected, ids).1 == Created(db, req.title, req.staffId.value, req.studentIds.value, ids)
    ensures var db' := Created(db, req.title, req.staffId.value, req.studentIds.value, ids);
      Register(db, req, rejected, ids).0 == Response(200, ProjectBody(ids.project, View(db', ids.project, AllStages, false)))
  {
    RegisterAccepted(db, req, rejected, ids);
  }

  /** The project a successful registration creates: one new project with
      the given title and guide and exactly the requested students; the
      other projects keep their rows and their students. */
  lemma RegisterCreatesProject(db: Db, req: RegisterRequest, rejected: set<nat>, ids: NewIds)
    requires Valid(db)
    requires Register(db, req, rejected, ids).0.status == 200
    ensures var db' := Register(db, req, rejected, ids).1;
      && req.staffId.Some? && req.studentIds.Some?
      && ids.project !in db.projects
      && db'.projects == db.projects[ids.project := Project(req.title, req.staffId.value)]
      && StudentsOf(db', ids.project) == IdSet(req.studentIds.value)
      && (forall p :: p in db.projects ==> StudentsOf(db', p) == StudentsOf(db, p))
      && db'.staff == db.staff
  {
    RegisterOk(db, req, rejected, ids);
    CreatedLinks(db, req.title, req.staffId.value, req.studentIds.value, ids);
  }

  /** How the reviews and stage tables of `db'` extend those of `db` with the
      review `ids.review` of project `ids.project`: the review is new, owned
      by the project and the project's only one; each of its six slots holds
      one default row; the other reviews' slots and all existing rows are
      unchanged. */
  ghost predicate ReviewAdded(db: Db, db': Db, ids: NewIds)
  {
    && ids.review !in db.reviews
    && db'.reviews == db.reviews[ids.review := Review(ids.project)]
    && ReviewsOf(db', ids.project) == {ids.review}
    && (forall st :: Slot(db'.tables.Get(st), ids.review) == [NewRecord(ids.records.Get(st), ids.review)])
    && (forall st, r :: r in db.reviews ==> Slot(db'.tables.Get(st), r) == Slot(db.tables.Get(st), r))
    && (forall st :: |db.tables.Get(st)| <= |db'.tables.Get(st)|
                     && db'.tables.Get(st)[..|db.tables.Get(st)|] == db.tables.Get(st))
  }

  /** The reviews after the nested create. */
  lemma CreatedReview(db: Db, title: string, g: Id, sids: seq<Id>, ids: NewIds)
    requires Valid(db) && Creatable(db, g, sids, ids)
    ensures ReviewAdded(db, Created(db, title, g, sids, ids), ids)
  {
    var db' := Created(db, title, g, sids, ids);
    forall st
      ensures Slot(db'.tables.Get(st), ids.review) == [NewRecord(ids.records.Get(st), ids.review)]
      ensures forall r :: r in db.reviews ==> Slot(db'.tables.Get(st), r) == Slot(db.tables.Get(st), r)
      ensures db'.tables.Get(st)[..|db.tables.Get(st)|] == db.tables.Get(st)
    {
      CreatedSlots(db, title, g, sids, ids, st);
    }
    assert ReviewsOf(db', ids.project) == {ids.review};
  }

  /** The review a successful registration creates. */
  lemma RegisterCreatesReview(db: Db, req: RegisterRequest, rejected: set<nat>, ids: NewIds)
    requires Valid(db)
    requires Register(db, req, rejected, ids).0.status == 200
    ensures ReviewAdded(db, Register(db, req, rejected, ids).1, ids)
  {
    RegisterOk(db, req, rejected, ids);
    CreatedReview(db, req.title, req.staffId.value, req.studentIds.value, ids);
  }

  // ---------------------------------------------------------------------
  // Read paths

  /** getAllProjects: every project with all six slots of its review. */
  function GetAllProjects(db: Db): (r: Response)
    ensures r.status == 200 && r.body.ProjectsBody?
    ensures r.body.projects.Keys == db.projects.Keys
    ensures forall p :: p in r.body.projects ==> r.body.projects[p] == View(db, p, AllStages, true)
  {
    Response(200, ProjectsBody(map p | p in db.projects :: View(db, p, AllStages, true)))
  }

  /** getAllProjectByStage: a missing token and an unknown token are refused
      with distinct messages; otherwise every project, its review narrowed to
      exactly the requested slot. */
  function GetAllProjectByStage(db: Db, stage: Option<string>): (r: Response)
    ensures Falsy(stage) ==> r == Fail(400, "Stage query parameter is required")
    ensures !Falsy(stage) && stage.value !in StageTokens ==> r == Fail(400, "Invalid stage value")
    ensures r.status == 200 <==> !Falsy(stage) && stage.value in StageTokens
    ensures r.status == 200 ==>
              && r.body.ProjectsBody?
              && r.body.projects.Keys == db.projects.Keys
              && forall p :: p in r.body.projects ==>
                   r.body.projects[p] == View(db, p, {ParseStage(stage.value).value}, true)
  {
    if Falsy(stage) then Fail(400, "Stage query parameter is required")
    else match ParseStage(stage.value)
      case None => Fail(400, "Invalid stage value")
      case Some(s) => Response(200, ProjectsBody(map p | p in db.projects :: View(db, p, {s}, true)))
  }

  /** getSingleProject: 404 for an unknown id; otherwise the project with all
      six slots of its review. */
  function GetSingleProject(db: Db, id: Id): (r: Response)
    ensures r.status == 200 <==> id in db.projects
    ensures id !in db.projects ==> r == Fail(404, "Project not found")
    ensures id in db.projects ==> r.body == SingleProject(id, View(db, id, AllStages, true))
  {
    if id in db.projects then Response(200, SingleProject(id, View(db, id, AllStages, true)))
    else Fail(404, "Project not found")
  }

  /** getAllProjectsForSingleStaff: the guide must exist (checked before the
      token); a present token must be one of the six; the result holds
      exactly the guide's projects, with the one requested slot, or with the
      bare review row when no token is given. */
  function GetAllProjectsForSingleStaff(db: Db, staffId: Id, stage: Option<string>): (r: Response)
    ensures staffId !in db.staff ==> r == Fail(404, "Staff member not found")
    ensures staffId in db.staff && !Falsy(stage) && stage.value !in StageTokens ==> r == Fail(400, "Invalid stage value")
    ensures r.status == 200 <==> staffId in db.staff && (Falsy(stage) || stage.value in StageTokens)
    ensures r.status == 200 ==>
              && r.body.ProjectsBody?
              && (forall p :: p in r.body.projects <==> p in db.projects && db.projects[p].staffId == staffId)
              && forall p :: p in r.body.projects ==>
                   r.body.projects[p] == View(db, p, if Falsy(stage) then {} else {ParseStage(stage.value).value}, true)
  {
    if staffId !in db.staff then Fail(404, "Staff member not found")
    else if !Falsy(stage) then
      match ParseStage(stage.value)
      case None => Fail(400, "Invalid stage value")
      case Some(s) => Response(200, ProjectsBody(map p | p in ProjectsOf(db, staffId) :: View(db, p, {s}, true)))
    else Response(200, ProjectsBody(map p | p in ProjectsOf(db, staffId) :: View(db, p, {}, true)))
  }

  // ---------------------------------------------------------------------
  // deleteProject

  /** The six `deleteMany({where: {reviewId}})` of the transaction. */
  function RemoveRows(tables: Tables, rs: set<Id>): (r: Tables)
    ensures forall st :: r.Get(st) == WithoutReviews(tables.Get(st), rs)
  {
    PerStage(
      WithoutReviews(tables.zero, rs), WithoutReviews(tables.one, rs), WithoutReviews(tables.two, rs),
      WithoutReviews(tables.three, rs), WithoutReviews(tables.model, rs), WithoutReviews(tables.final, rs))
  }

  /** The students table after project `pid` is deleted: its students no
      longer point to it. */
  function Unlinked(students: map<Id, Student>, pid: Id): (r: map<Id, Student>)
    ensures r.Keys == students.Keys
    ensures forall s :: s in r && students[s].projectId == Some(pid) ==> r[s] == Student(None)
    ensures forall s :: s in r && students[s].projectId != Some(pid) ==> r[s] == students[s]
  {
    map s | s in students :: if students[s].projectId == Some(pid) then Student(None) else students[s]
  }

  /** The store after the transaction (the six `deleteMany` and the review
      delete) and the project delete. Students of the project lose their
      link (the default action of an optional relation). */
  function Removed(db: Db, pid: Id): (r: Db)
    ensures r.staff == db.staff && r.students.Keys == db.students.Keys
    ensures r.projects.Keys == db.projects.Keys - {pid}
    ensures r.reviews.Keys == db.reviews.Keys - ReviewsOf(db, pid)
  {
    var rs := ReviewsOf(db, pid);
    Db(
      Unlinked(db.students, pid),
      db.staff,
      db.projects - {pid},
      db.reviews - rs,
      RemoveRows(db.tables, rs))
  }

  /** deleteProject: 404 with no change for an unknown id (the body is a bare
      string); otherwise the project, its review and the review's stage rows
      are gone. */
  function Delete(db: Db, pid: Id): (out: (Response, Db))
    ensures pid !in db.projects ==> out == (Response(404, PlainText("Project not found.")), db)
    ensures pid in db.projects ==> out.0 == Response(200, MessageBody("Project deleted successfully"))
    ensures out.1.projects.Keys == db.projects.Keys - {pid}
  {
    if pid !in db.projects then (Response(404, PlainText("Project not found.")), db)
    else (Response(200, MessageBody("Project deleted successfully")), Removed(db, pid))
  }

  /** What a successful delete removes, and that it removes nothing else: the
      project's review and every stage row of that review are gone; every
      other project, review and review slot is unchanged. */
  lemma DeleteSuccess(db: Db, pid: Id)
    requires pid in db.projects
    ensures var db' := Delete(db, pid).1;
      && pid !in db'.projects
      && (forall p :: p in db.projects && p != pid ==> p in db'.projects && db'.projects[p] == db.projects[p])
      && (forall r :: r in ReviewsOf(db, pid) ==> r !in db'.reviews)
      && (forall r :: r in db.reviews && r !in ReviewsOf(db, pid) ==> r in db'.reviews && db'.reviews[r] == db.reviews[r])
      && (forall st, x :: x in db'.tables.Get(st) ==> x.reviewId !in ReviewsOf(db, pid))
      && (forall st, r :: r in db.reviews && r !in ReviewsOf(db, pid) ==>
            Slot(db'.tables.Get(st), r) == Slot(db.tables.Get(st), r))
      && (forall p :: p in db.projects && p != pid ==> StudentsOf(db', p) == StudentsOf(db, p))
      && db'.staff == db.staff
  {
    var rs := ReviewsOf(db, pid);
    var db' := Delete(db, pid).1;
    forall st, r | r in db.reviews && r !in rs
      ensures Slot(db'.tables.Get(st), r) == Slot(db.tables.Get(st), r)
    {
      SlotAfterRemoval(db.tables.Get(st), rs, r);
    }
  }
}
