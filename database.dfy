/** The persistent store the handlers work on, as a value: students, staff,
    projects, reviews and the six stage tables; the response shapes the
    handlers produce; and the integrity rules the database schema enforces. */
module Database {
  import opened Common
  import opened Stages
  import opened StageTables

  /** A student row; `projectId` is its optional foreign key to a project. */
  datatype Student = Student(projectId: Option<Id>)

  /** A project row; `staffId` is the required foreign key to its guide. */
  datatype Project = Project(title: string, staffId: Id)

  /** A review row; `projectId` is the foreign key to the owning project. */
  datatype Review = Review(projectId: Id)

  type Tables = PerStage<Table>

  datatype Db = Db(
    students: map<Id, Student>,
    staff: set<Id>,
    projects: map<Id, Project>,
    reviews: map<Id, Review>,
    tables: Tables)

  /** The projects a guide owns (`project.count({where: {staffId}})`). */
  function ProjectsOf(db: Db, staffId: Id): (ps: set<Id>)
    ensures forall p :: p in ps <==> p in db.projects && db.projects[p].staffId == staffId
  {
    set p | p in db.projects && db.projects[p].staffId == staffId
  }

  /** The students linked to a project: those whose foreign key names it,
      as the `students` relation of a project reads them. */
  function StudentsOf(db: Db, pid: Id): (ss: set<Id>)
    ensures forall s :: s in ss <==> s in db.students && db.students[s].projectId == Some(pid)
    ensures ss <= db.students.Keys
  {
    set s | s in db.students && db.students[s].projectId == Some(pid)
  }

  /** The reviews whose owner is the project. */
  function ReviewsOf(db: Db, pid: Id): (rs: set<Id>)
    ensures forall r :: r in rs <==> r in db.reviews && db.reviews[r].projectId == pid
  {
    set r | r in db.reviews && db.reviews[r].projectId == pid
  }

  /** Every student's project link names an existing project. */
  ghost predicate StudentLinksValid(db: Db)
  {
    forall s :: s in db.students && db.students[s].projectId.Some? ==> db.students[s].projectId.value in db.projects
  }

  /** Every project's guide exists. */
  ghost predicate GuidesValid(db: Db)
  {
    forall p :: p in db.projects ==> db.projects[p].staffId in db.staff
  }

  /** Every review's project exists, and no project has two reviews (the
      relation is one-to-one). */
  ghost predicate ReviewOwnersValid(db: Db)
  {
    && (forall r :: r in db.reviews ==> db.reviews[r].projectId in db.projects)
    && (forall r1, r2 ::
          r1 in db.reviews && r2 in db.reviews && db.reviews[r1].projectId == db.reviews[r2].projectId
          ==> r1 == r2)
  }

  /** Stage rows have unique ids in their table and belong to an existing
      review. */
  ghost predicate RowsValid(db: Db)
  {
    && (forall st :: UniqueIds(db.tables.Get(st)))
    && (forall st, x :: x in db.tables.Get(st) ==> x.reviewId in db.reviews)
  }

  /** Referential integrity and the keys of the schema. */
  ghost predicate Valid(db: Db)
  {
    StudentLinksValid(db) && GuidesValid(db) && ReviewOwnersValid(db) && RowsValid(db)
  }

  /** A project as a handler returns it. `students` holds the ids of the
      project's students when the handler includes them, and is None when it
      does not; `reviews` maps the id of each review of the project (at most
      one in a valid store) to the stage slots the handler includes. The
      student and guide columns themselves are left out. */
  datatype ProjectView = ProjectView(
    title: string,
    staffId: Id,
    students: Option<set<Id>>,
    reviews: map<Id, map<Stage, Table>>)

  /** The project `pid` with its review narrowed to the slots in `slots`,
      and with its students when `withStudents` holds. */
  function View(db: Db, pid: Id, slots: set<Stage>, withStudents: bool): (v: ProjectView)
    requires pid in db.projects
    ensures v.title == db.projects[pid].title && v.staffId == db.projects[pid].staffId
    ensures v.students == if withStudents then Some(StudentsOf(db, pid)) else None
    ensures v.reviews.Keys == ReviewsOf(db, pid)
    ensures forall r :: r in v.reviews ==> v.reviews[r].Keys == slots
    ensures forall r, s :: r in v.reviews && s in slots ==> v.reviews[r][s] == Slot(db.tables.Get(s), r)
  {
    ProjectView(
      db.projects[pid].title,
      db.projects[pid].staffId,
      if withStudents then Some(StudentsOf(db, pid)) else None,
      map r | r in ReviewsOf(db, pid) :: map s | s in slots :: Slot(db.tables.Get(s), r))
  }

  /** The slot `st` of review `r` in a view with all six slots. */
  lemma ViewSlot(db: Db, pid: Id, r: Id, st: Stage, withStudents: bool)
    requires pid in db.projects && r in ReviewsOf(db, pid)
    ensures r in View(db, pid, AllStages, withStudents).reviews
    ensures st in View(db, pid, AllStages, withStudents).reviews[r]
    ensures View(db, pid, AllStages, withStudents).reviews[r][st] == Slot(db.tables.Get(st), r)
  {
    InAllStages(st);
  }

  /** Including the students changes nothing else in a view. */
  lemma ViewWithStudents(db: Db, pid: Id, slots: set<Stage>)
    requires pid in db.projects
    ensures View(db, pid, slots, true) == View(db, pid, slots, false).(students := Some(StudentsOf(db, pid)))
  {
  }

  /** The JSON body of a response. */
  datatype Body =
    | ErrorBody(error: string)              // {error: "..."}
    | ThrownError                           // {error: err.message} of a storage exception
    | PlainText(text: string)               // a bare JSON string
    | MessageBody(msg: string)              // {msg: "..."}
    | ProjectBody(id: Id, project: ProjectView)        // {project: {...}}
    | SingleProject(id: Id, project: ProjectView)      // the project object itself
    | ProjectsBody(projects: map<Id, ProjectView>)
    | UpdatedBody(updateData: StageRecord, message: string)

  datatype Response = Response(status: int, body: Body)

  function Fail(status: int, error: string): Response
  {
    Response(status, ErrorBody(error))
  }
}
