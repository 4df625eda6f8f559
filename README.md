# Project registration and review-stage workflow

A Dafny model of the project workflow of an academic project-management
backend. Staff members ("guides") own projects; each project has
at most two students and one review; and each review has six stage records:
zero, one, two, three, model and final. The model covers the request
handlers of `src/handlers/project.js` and `src/handlers/review.js`:

- `registerProject`: a fail-fast chain of checks, then one atomic nested
  create of a project, its review and six default stage rows.
- `getAllProjects`, `getAllProjectByStage`, `getSingleProject` and
  `getAllProjectsForSingleStaff`: read paths that differ in the order of
  their checks and in the stage slots they include.
- `deleteProject`: a cascading delete. A transaction removes the review's
  stage rows and the review; then the project itself is deleted.
- `updateReview`: resolves a stage token to a slot, then passes the request
  body to the update of the first row of that slot, through a per-stage
  dispatch table.

The store is the database these handlers reach through the ORM. It has
students, staff, projects, reviews and six stage tables. Each stage table
is a sequence of rows in storage order. A review's slot for a stage is the
list of rows of that table that carry the review's id, which is what
`reviews[reviewField]` denotes in `updateReview` (it is read with
`.length` and `[0]`).

There are two layers:

- Every handler is a function of a store snapshot (`Database.Db`) and a
  request. The three writing handlers (`Projects.Register`,
  `Projects.Delete`, `Reviews.UpdateReview`) return a response and a new
  snapshot; the four read handlers return a response only.
- The three writing handlers are also methods of the class `Store.Store`.
  The class holds the same tables as fields and updates them in place.
  Each method is proved to agree with its function.

Lemmas about these functions state the handlers' promises:

- the order of the checks;
- the error responses, and that each one leaves the store unchanged;
- the frame of every success;
- the invariants kept over any sequence of requests: at most 12 projects per
  guide, at most 2 students per project, exactly one row per review in each
  of the six stages (for updates that keep their row in its review; see
  below), and every project having its review;
- read-back round trips after a registration and after a delete.

Identifiers that the database generates are parameters of a request
(`Projects.NewIds`). So is the outcome of each student lookup: which
lookups reject is given as a set of positions.

Three behaviours of the code are worth stating directly:

- Missing student ids. `Promise.allSettled` counts only rejected lookups
  (`src/handlers/project.js:30-44`). `findFirst` fulfils with `null` for an
  unknown id, so the 404 check does not fire for it. The request reaches the
  create, whose `connect` throws, and the response is 500 with the store
  unchanged (`Projects.RegisterUnknownStudent`).
- The registration response. The create includes only the review
  (`src/handlers/project.js:103-114`), so the returned project carries no
  students (`ProjectView.students` is `None` there). `getSingleProject`
  does include them (`Properties.RegisterThenRead`).
- The update body. `updateReview` passes the request body to the stage
  table's `update` as it is (`src/handlers/review.js:55-58`). A body may
  therefore write the row's key columns `id` and `reviewId` as well as its
  content (`StageTables.Rewrite`). The database refuses a non-string key, an
  id held by another row and a reviewId naming no review, and the handler
  then answers 500 with the store unchanged (`StageTables.Writable`). An
  accepted body that names another review moves the row into that review's
  slot: the one-row-per-stage invariant then fails
  (`Properties.UpdateCanMoveRow`). So the invariant is proved for updates
  whose body keeps the row in its review (`Reviews.KeepsReview`).

## Model

| member | source | states |
|---|---|---|
| Stages.Token | src/handlers/review.js:13-20 | every stage has a token of the closed six-entry table |
| Stages.ParseStage | src/handlers/review.js:13-26 | a token resolves exactly when it is one of the six case-sensitive tokens; it resolves to the stage whose token it is, and to no other; the same table is repeated at src/handlers/project.js:169-182 and 281-294 |
| Stages.TokensDistinct | src/handlers/review.js:13-20 | distinct stages have distinct tokens |
| Stages.LookupAsWritten | src/handlers/review.js:22 | the object lookup as written yields an own field exactly for the six tokens and an inherited member exactly for the Object.prototype names; it is undefined for everything else |
| Stages.PassesGuardAsWritten | src/handlers/review.js:24 | the guard `if (!reviewField)` as written lets a token through exactly when it is one of the six tokens or an Object.prototype member name |
| Stages.InheritedNamePassesGuard | src/handlers/review.js:22-26 | "constructor" passes the guard as written although it is not a stage token |
| StageTables.Slot | src/handlers/review.js:40-44 | a slot holds exactly the rows of the table that belong to the review, and is no longer than the table |
| StageTables.FirstIndex | src/handlers/review.js:44 | the first position of a review's row: none exactly when the review has no row; otherwise a row of that review with no row of it before |
| StageTables.FirstOfSlot | src/handlers/review.js:40-44 | element 0 of a review's slot is the row at its first position, and the slot is empty exactly when there is no such position |
| StageTables.Patch | src/handlers/review.js:55-58 | fields named in the body take the body's values; the other fields keep theirs; no field is lost |
| StageTables.ContentOf | src/handlers/review.js:57 | the fields of the body other than the key columns `id` and `reviewId`, with the body's values |
| StageTables.Rewrite | src/handlers/review.js:55-58 | a key column named with a string takes that string, one not named is kept; the other fields of the body are written over the content |
| StageTables.Writable | src/handlers/review.js:55-63 | the database accepts the write: string keys, a new id held by no other row, a new reviewId naming an existing review |
| StageTables.UpdateById | src/handlers/review.js:55-58 | update by id keeps the length; it rewrites exactly the rows with that id and leaves every other row as it was |
| StageTables.UpdateOnlyAt | src/handlers/review.js:44-58 | with unique ids, updating the id of row i rewrites row i and no other row |
| StageTables.SlotLengthAt | src/handlers/review.js:55-58 | replacing one row takes it out of its old review's slot and puts it in its new review's; every other slot keeps its length |
| StageTables.MoveRow | src/handlers/review.js:55-58 | moving the one row of a review to another review with one row empties the first slot and doubles the second |
| StageTables.UpdateKeepsUniqueIds | src/handlers/review.js:55-58 | an update the database accepts keeps the ids unique |
| StageTables.UpdateKeepsOwners | src/handlers/review.js:55-58 | an update the database accepts keeps every row owned by an existing review |
| StageTables.WithoutReviews | src/handlers/project.js:368-373 | `deleteMany({where: {reviewId}})` keeps exactly the rows whose review is not deleted |
| StageTables.RemovalKeepsUniqueIds | src/handlers/project.js:368-373 | deleting rows keeps the ids unique |
| StageTables.RemovalKeepsRowsValid | src/handlers/project.js:368-374 | after the deletes, the ids are still unique and every row left belongs to a review still present |
| StageTables.SlotAppend | src/handlers/project.js:80-97 | appending a row extends the slot of that row's review by the row and leaves every other slot as it was |
| StageTables.SlotAfterRemoval | src/handlers/project.js:368-373 | deleting the rows of other reviews leaves a review's slot as it was |
| Common.Falsy | src/handlers/review.js:9 | an optional string parameter is truthy exactly when it is present and non-empty; the same test is `!staffId` at src/handlers/project.js:11 and `!stage` at src/handlers/project.js:165 and `if (stage)` at 280 |
| Database.ProjectsOf | src/handlers/project.js:16-20 | `project.count({where: {staffId}})` counts exactly the stored projects whose guide is the given one |
| Database.StudentsOf | src/handlers/project.js:49-55 | a project's students are exactly the students whose foreign key names it; this is the `students` relation each include reads (src/handlers/project.js:140-145, 191-196, 221-230, 302-308, 325-331) |
| Database.ReviewsOf | src/handlers/project.js:359-361 | the reviews of a project are exactly the stored reviews whose projectId is that project; it is what `review.findFirst({where: {projectId}})` and every read's `review` include find |
| Database.View | src/handlers/project.js:127-152 | a returned project has the stored title and guide; its students when included; exactly its own reviews; and, for each review, exactly the requested slots, each equal to that review's rows |
| Projects.Lookups | src/handlers/project.js:30-36 | one settled result per requested id: rejected exactly at the given positions; otherwise fulfilled with the stored row of a known id, and with null exactly for an unknown id |
| Projects.FoundStudents | src/handlers/project.js:40 | the fulfilled results only; as many results as lookups exactly when none rejected |
| Projects.AllFulfilled | src/handlers/project.js:40-44 | the 404 check passes exactly when none of the rejected positions is a position of the request |
| Projects.NewRecord | src/handlers/project.js:82-99 | a row made by `create: {}` carries the generated id and the new review's id, and has no content column set, so a later update's content is exactly the body's non-key fields |
| Projects.AppendRecords | src/handlers/project.js:80-97 | each of the six tables gains exactly one row at its end, of the new review and with default content |
| Projects.AlreadyAssigned | src/handlers/project.js:47-66 | the `findMany` is non-empty exactly when some project lists one of the requested ids among its students |
| Projects.AssignedSomewhere | src/handlers/project.js:47-66 | a requested student linked to an existing project is one that project lists, and the other way round |
| Projects.Creatable | src/handlers/project.js:71-79 | the create succeeds exactly when every connected student and the guide exist and the new project, review and row ids are unused |
| Projects.Created | src/handlers/project.js:71-115 | the nested create keeps the staff and the set of students, adds exactly the new project with its title and guide, and its review, and one row to each stage table |
| Projects.Linked | src/handlers/project.js:74-76 | `connect` points exactly the listed students to the new project and keeps every other student |
| Projects.Unlinked | src/handlers/project.js:379 | deleting a project unlinks exactly its students and keeps every other student |
| Projects.Register | src/handlers/project.js:7-122 | status is one of 200, 400, 404 or 500; every status other than 200 leaves the store unchanged; a 200 stores the new project and answers with its id |
| Projects.RegisterNeedsStaffId | src/handlers/project.js:11-13 | a missing or empty guide id gives 400 "Staff ID is required", store unchanged |
| Projects.RegisterGuideFull | src/handlers/project.js:16-24 | a guide with 12 or more projects gives 400, store unchanged |
| Projects.RegisterTooManyStudents | src/handlers/project.js:26-28 | more than 2 ids give 400 after the guide checks and whatever the lookups would do |
| Projects.RegisterRejectedLookup | src/handlers/project.js:30-44 | a rejected lookup gives 404 "One or more students not found", store unchanged |
| Projects.RegisterUnknownStudent | src/handlers/project.js:30-121 | an unknown student id passes the 404 check and ends in 500, store unchanged |
| Projects.RegisterStudentTaken | src/handlers/project.js:47-68 | a requested student already on a project gives 400, store unchanged |
| Projects.RegisterAccepted | src/handlers/project.js:11-117 | registration succeeds exactly when every check of the chain passes and the create can be carried out |
| Projects.RegisterOk | src/handlers/project.js:70-117 | a success passed every check; its store is the nested create's; its body is the new project with all six slots and without students |
| Projects.CreatedLinks | src/handlers/project.js:71-79 | the new project has exactly the requested students; every other project keeps its students |
| Projects.CreatedSlots | src/handlers/project.js:80-97 | each new slot holds exactly one default row; the slots of other reviews and all existing rows are unchanged |
| Projects.RegisterCreatesProject | src/handlers/project.js:71-79 | a success adds exactly one project, with the given title and guide and exactly the requested students; other projects, their students and the staff are unchanged |
| Projects.CreatedReview | src/handlers/project.js:80-97 | the nested create adds exactly one review, the project's only one, with one default row per stage; nothing else changes in the reviews or stage tables |
| Projects.RegisterCreatesReview | src/handlers/project.js:80-97 | the same facts for a successful registration |
| Projects.GetAllProjects | src/handlers/project.js:124-159 | 200 with exactly the stored projects, each with all six slots |
| Projects.GetAllProjectByStage | src/handlers/project.js:161-210 | a missing token gives 400 "Stage query parameter is required"; an unknown token gives 400 "Invalid stage value"; otherwise 200 with every project and its review narrowed to exactly the requested slot |
| Projects.GetSingleProject | src/handlers/project.js:212-260 | 404 "Project not found" exactly for an unknown id; otherwise the project with its students and all six slots |
| Projects.GetAllProjectsForSingleStaff | src/handlers/project.js:262-343 | an unknown guide gives 404, checked before the token; a present invalid token gives 400; otherwise exactly the guide's projects, with the requested slot, or with the bare review when no token is given |
| Projects.RemoveRows | src/handlers/project.js:366-375 | the transaction's six deletes, one per stage table |
| Projects.Delete | src/handlers/project.js:345-386 | an unknown id gives 404 with the bare string "Project not found." and no change; otherwise 200 and the project is gone |
| Projects.DeleteSuccess | src/handlers/project.js:358-381 | after a delete, the project, its review and all of that review's stage rows are gone; every other project, review, slot, student link and the staff are unchanged |
| Projects.Removed | src/handlers/project.js:358-379 | the cascade keeps the staff and the set of students, removes exactly the project, and removes exactly its reviews |
| Reviews.UpdateTarget | src/handlers/review.js:46-55 | the dispatch table selects the update of the same stage that the stage table resolves |
| Reviews.UpdateReview | src/handlers/review.js:4-65 | status is 200, 400, 404 or 500, and only a 200 changes the store; the two 400 messages for a missing and an unknown token; 404 for an unknown review and for an empty slot; past those checks, 200 exactly when the database accepts the write, 500 otherwise; a 200 writes only the resolved stage table |
| Reviews.UpdatedMessage | src/handlers/review.js:60 | the message is "review ", the requested token, then "  updated successfully" |
| Reviews.UpdateOk | src/handlers/review.js:40-58 | a success found the review and a non-empty slot, the database accepted the write, and its store has the resolved table updated at the id of the slot's first row |
| Reviews.UpdateIsolated | src/handlers/review.js:40-60 | a success rewrites only the row at index 0 of the resolved slot; every other row, the other five tables and the rest of the store are unchanged; the response carries the rewritten row and names the requested stage |
| Reviews.UpdateReviewAsWritten | src/handlers/review.js:22-42 | with the guard as written, an inherited member name passes to the load and gives 404; every other token behaves as with the closed table |
| Reviews.ConstructorTokenAsWritten | src/handlers/review.js:22-26 | "constructor" gives 404 as written and 400 "Invalid stage value" with the closed table |
| Properties.OneProjectPerStudent | src/handlers/project.js:47-68 | a student is on at most one project in any store |
| Properties.ProjectsOfAdded | src/handlers/project.js:16-24 | a new project counts for its own guide and for no other guide |
| Properties.CreatedKeepsCapacity | src/handlers/project.js:16-24 | the create adds one project to a guide below 12 and none to any other guide |
| Properties.CreatedRowsValid | src/handlers/project.js:80-97 | the new rows keep the ids of every stage table unique and owned |
| Properties.CreatedValid | src/handlers/project.js:70-117 | the create keeps the store's referential invariant |
| Properties.CreatedStudentsBounded | src/handlers/project.js:26-28 | with at most 2 ids, every project keeps at most 2 students |
| Properties.CreatedSixStages | src/handlers/project.js:80-97 | every review keeps exactly one row per stage |
| Properties.CreatedReviewed | src/handlers/project.js:80-97 | every project keeps its review |
| Properties.CreatedKeepsHealthy | src/handlers/project.js:70-117 | after the checks passed, the create keeps all of the invariants above |
| Properties.RemovedRowsValid | src/handlers/project.js:366-375 | the cascade leaves no row of a deleted review and keeps ids unique |
| Properties.RemovedOwnersValid | src/handlers/project.js:374 | every review left belongs to a project still present |
| Properties.RemovedLinksValid | src/handlers/project.js:379 | no student points to the deleted project |
| Properties.RemovedValid | src/handlers/project.js:358-381 | the cascade keeps the referential invariant |
| Properties.RemovedKeepsCapacity | src/handlers/project.js:379 | a delete never adds to a guide's projects |
| Properties.RemovedStudentsBounded | src/handlers/project.js:379 | a delete keeps every project at 2 students or fewer |
| Properties.RemovedSixStages | src/handlers/project.js:366-375 | the remaining reviews keep exactly one row per stage |
| Properties.RemovedReviewed | src/handlers/project.js:358-381 | the remaining projects keep their reviews |
| Properties.RemovedKeepsHealthy | src/handlers/project.js:345-386 | a delete keeps all of the invariants |
| Properties.UpdatedRowsValid | src/handlers/review.js:55-58 | an accepted stage update keeps the ids unique and the rows owned |
| Properties.UpdatedSixStages | src/handlers/review.js:55-58 | a stage update that keeps its row in its review keeps exactly one row per review and stage |
| Properties.TablesOnly | src/handlers/review.js:55-58 | what depends only on students, staff, projects and reviews is unchanged by a write to the stage tables |
| Properties.UpdatedKeepsHealthy | src/handlers/review.js:55-58 | an accepted stage update that keeps its row in its review keeps all of the invariants |
| Properties.UpdateCanMoveRow | src/handlers/review.js:55-58 | a body naming another review succeeds, empties the row's own slot, after which the stage answers 404, and gives the other review two rows, breaking the one-row-per-stage invariant |
| Properties.RegisterKeepsCapacity | src/handlers/project.js:16-24 | registration never puts a guide over 12 projects |
| Properties.RegisterKeepsHealthy | src/handlers/project.js:7-122 | registration keeps all of the invariants |
| Properties.DeleteKeepsHealthy | src/handlers/project.js:345-386 | a delete request keeps all of the invariants |
| Properties.UpdateKeepsHealthy | src/handlers/review.js:4-65 | an update request whose body keeps the row in its review keeps all of the invariants |
| Properties.RunKeepsCapacity | src/handlers/project.js:16-24 | from a store with no guide over 12 projects, no sequence of registrations, deletes and updates puts a guide over 12 |
| Properties.RunKeepsHealthy | src/handlers/project.js:7-122 | every invariant holds after any sequence of requests whose updates keep their rows in their reviews |
| Properties.CreatedThenRead | src/handlers/project.js:212-254 | the created project reads back with the given title and guide, exactly the requested students, and one review whose six slots each hold one default row |
| Properties.RegisterThenRead | src/handlers/project.js:212-254 | reading a registered project back gives the registration's project plus its students; these are exactly the requested students, with one default row per slot |
| Properties.CreatedThenUpdate | src/handlers/review.js:28-60 | an update of any stage of a new review succeeds exactly when the database accepts the body's write of its one row |
| Properties.RegisterThenUpdate | src/handlers/review.js:28-60 | the same for the review of a freshly registered project |
| Properties.DeleteThenRead | src/handlers/project.js:345-386 | after a delete, the project is not found, its review has no rows, and no update of it succeeds |
| Store.Store.RegisterProject | src/handlers/project.js:7-122 | the in-place handler answers and changes the store exactly as `Projects.Register`, and keeps the invariants |
| Store.Store.Create | src/handlers/project.js:70-117 | the in-place nested create stores what `Projects.Created` describes and answers with the new project |
| Store.Store.DeleteProject | src/handlers/project.js:345-386 | the in-place handler answers and changes the store exactly as `Projects.Delete`, and keeps the invariants |
| Store.Store.DeleteReviews | src/handlers/project.js:366-375 | the in-place transaction removes the reviews and their rows from all six tables and nothing else |
| Store.Store.UpdateReview | src/handlers/review.js:4-65 | the in-place handler answers and changes the store exactly as `Reviews.UpdateReview`, and keeps the invariants when the body keeps the row in its review |
| Store.Store.UpdateStage | src/handlers/review.js:46-58 | the dispatched update writes the table of the selected stage and no other field |

## Left out

- Storage faults are not modelled, except for the rejected student lookups. The message text of a thrown storage error is modelled as one opaque `ThrownError` body.
- The student and guide columns of a response are left out: full name, registration number, e-mail, phone and batch. A project shows the ids of its students only.
- The order of the projects from `findMany` is not modelled: a list response is a map keyed by project id.
- An update body is a map of scalar values: null, booleans, integers and strings. Fractional numbers, arrays and nested objects are not modelled.
- The content fields of an update body are not checked against the stage table's schema, which is not part of this model: a content field the schema lacks is written, where the ORM would refuse it with 500.
- Properties.RunKeepsHealthy, Properties.UpdateKeepsHealthy and Store.Store.UpdateReview: the invariants are promised only for updates whose body keeps the row in its review, because `Properties.UpdateCanMoveRow` proves that other bodies break them.
- The title is a plain string, and an absent title in the request body is not modelled.
- Deleting a project unlinks its students. This assumes the ORM's default for an optional relation; the schema that would confirm it is not part of this model.
- StageTables.FirstIndex: a slot's rows are taken in table order, so `[0]` of a slot is its first row by table position. The include at `src/handlers/review.js:28-38` has no `orderBy`, so the database may return them in another order. This changes only which row is updated when a slot holds more than one row, which `Properties.UpdateCanMoveRow` shows can happen. `Reviews.UpdateIsolated` states the update of that first row by table position.
- A second review for the same project is excluded by the store invariant (one review per project), so the delete path's `findFirst` of a single review is modelled as removing every review of the project.
- Concurrency (two requests passing the same check) is not modelled: requests run one at a time.
- Authentication, login, the admin, staff and student handlers, Express wiring, uploads and logging are not part of this model.
- The commented-out alternative handlers, with their different constants, are not part of this model.
- Projects.Register: its own ensures state only the status set, the unchanged store on failure and the new project's id. The full 200 response is stated in `Projects.RegisterOk`, because putting it in the function's contract made every proof about it too costly.
- Projects.GetAllProjectByStage uses the closed stage table. With the lookup as written, an inherited member name would reach the query with an unknown select key, which the ORM rejects with 500. That path is not modelled.
- Projects.GetAllProjectsForSingleStaff uses the closed stage table too, so the same 500 path for an inherited member name is not modelled.

## Findings

| source | as written | input that shows it | evidently intended | confidence | as-written member | corrected member |
|---|---|---|---|---|---|---|
| src/handlers/review.js:22-26 | `reviewFields[stage]` reads a plain object, so the inherited members of Object.prototype also pass the "Invalid stage value" guard | `?stage=constructor` gives 404 "Review stage not found" instead of 400 "Invalid stage value" | only the six tokens pass the guard | not executed | Reviews.UpdateReviewAsWritten, Reviews.ConstructorTokenAsWritten | Stages.ParseStage |
| src/handlers/review.js:55-58 | the request body is passed to `update` as `data` unfiltered, so a body naming another review's id under `reviewId` is accepted and moves the stage row into that review | `{"reviewId": r2}` for the only model row of review r1, where r2 is another existing review: 200, then r1's model slot is empty (a later update gives 404) and r2's holds two rows | each review keeps exactly one row per stage, as the nested create sets up | not executed | Properties.UpdateCanMoveRow | Properties.UpdateKeepsHealthy, Reviews.KeepsReview |
