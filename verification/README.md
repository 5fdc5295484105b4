# Competition hub: the competition lifecycle, in Dafny

This project models the part of the competition hub that decides things:

- **Rounds.** A creator publishes a task with rounds. The backend stores the
  rounds in deadline order and activates only the first. Each activation
  moves the active flag to the next round in deadline order once the current
  round's deadline has passed, and stamps the round it leaves; the rows keep
  their stored order.
- **Submissions.** Applicants upload a file for the task or for a round. The
  upload passes a fixed sequence of checks: file, task, elimination, round
  membership, round deadline and round activity.
- **Reviews.** The creator reviews a submission with text, points or both,
  depending on the task's evaluation type.
- **Eliminations.** The creator eliminates applicants. The server replaces
  the task's list with the list sent; the union is computed by the client.
- **Notifications.** They rest on watermarks: when the applicant last looked
  at their review, whether they have seen their elimination, and when they
  last looked at a newly opened round.

The React client mirrors much of this logic, and it is modelled too:

- date parsing and comparison;
- the active round and the applicant list;
- the elimination selection;
- the points clamp;
- the edit, create and review payloads;
- the applicant's round cards and the task page;
- the list of open tasks;
- the profile counts;
- the notification bell.

## Modelling choices

- **Module per source area.** Each source area is one module:
  - `Entities`: the records and `Task.syncDeadlineFromRounds`.
  - `RoundOrder`: the stable sort by deadline, and the first active round.
  - `TaskService`: the task endpoints.
  - `ApplicationRepository`: the finders and the notification queries.
  - `ApplicationService`: uploads, reviews and watermarks.
  - One module per client file: `ClientTask`, `ClientDates`, `ApplicantView`, `NewTaskForm`, `ApplyPage`, `ActiveTasksPage`, `ProfilePage` and `AppHeader`.
  - `ClientServer`: lemmas that connect what the client shows or sends with what the server then does.
- **Database.** The database is a pair of maps from id to entity. Each endpoint is a pure function from a database to a `Response`: `Ok` with the new database, or `Err` with the HTTP status and the reason. A refused request therefore saves nothing.
- **Parameters for the outside world.** Today's date, the current instant, the upload directory, and whether writing the file fails are all parameters.
- **Dates.**
  - A date is a day number on the same scale as `LocalDate.toEpochDay`.
  - Instants are integers.
  - The client's `Date` arithmetic is modelled through `DaysFromCivil` and ECMAScript's `MakeDay`. This includes the rule that `new Date(y, m, d)` reads a year from 0 to 99 as 1900 to 1999.
- **Controller variants.** Where a controller endpoint repeats the service with fewer checks, the two share one core function. The missing check is a flag (`checkActive`, or the optional activation stamp). Where the controller does exactly what the service does (create, update, touch, eliminate, touchReviewView), it is not modelled twice.
- **Fields the repository uses.** `Application` carries `eliminatedSeen` and `lastRoundActivationViewAt`. The application entity as written does not declare them, but the repository's queries and the service read and write them. They are optional fields here.
- **Notification endpoints the controllers do not map.** The client calls `elimination-notifications`, `round-activation-notifications`, `touch-elimination-view` and `touch-round-activation-view` under `/api/applications` (`competition-hub/src/Components/AppHeader.tsx:49-91`, `competition-hub/src/Components/Task.tsx:64-66`). `ApplicationController.java` maps only the routes at its lines 47, 121, 175, 201, 265, 272 and 289, and no other controller among the sources maps these four. `ClientServer.EliminationClickClears` and `ClientServer.RoundClickClears` assume the four URLs reach the service methods of the same names.
- **A finder the repository does not declare.** `listRoundActivationNotifications` (`ApplicationServiceImpl.java:305`) calls `findByKeycloakUserName`, which `ApplicationRepository.java` does not declare. It is modelled as the finder its name describes: the applications whose user name is the given one.
- **JavaScript `Map`.** A `Map` is its entry list. Setting a present key keeps its place and replaces the value; setting a new key appends it.

## Model

| member | source | states |
|---|---|---|
| Entities.NewRound | competition-hub-backend/competition-hub/src/main/java/backend/competition_hub/entities/Round.java:21-35 | A new round belongs to its task, is inactive, and has never been left (no activation time). |
| Entities.NewApplication | competition-hub-backend/competition-hub/src/main/java/backend/competition_hub/entities/Application.java:25-58 | An application as the upload endpoints build it carries its task, its round (if any), the user and the date. It is unreviewed and has no watermark set. |
| Entities.MinDeadline | competition-hub-backend/competition-hub/src/main/java/backend/competition_hub/entities/Task.java:62-66 | The minimum round deadline is the deadline of one of the rounds and is no later than any of them. |
| Entities.SyncDeadline | competition-hub-backend/competition-hub/src/main/java/backend/competition_hub/entities/Task.java:58-68 | Synchronising changes only the application deadline. With no rounds the task is unchanged. With rounds the deadline is set, is at most every round's deadline, and equals one of them. |
| Entities.SyncDeadlineIdempotent | competition-hub-backend/competition-hub/src/main/java/backend/competition_hub/entities/Task.java:58-60 | Synchronising twice (persist, then update) equals synchronising once, and the result is synchronised. |
| Entities.Save | competition-hub-backend/competition-hub/src/main/java/backend/competition_hub/entities/Task.java:33-34 | Saving fails with a 500 exactly when a task without rounds has no application deadline (a non-null column). Otherwise it stores the synchronised task. |
| Entities.SavePersistedIsIdentity | competition-hub-backend/competition-hub/src/main/java/backend/competition_hub/entities/Task.java:58-68 | Saving a task that is already as stored changes nothing. |
| RoundOrder.InsertPoint | competition-hub-backend/competition-hub/src/main/java/backend/competition_hub/services/TaskServiceImpl.java:60 | A stable insertion goes after every round with an earlier deadline and before the first round whose deadline is not earlier. |
| RoundOrder.InsertKeepsSorted | competition-hub-backend/competition-hub/src/main/java/backend/competition_hub/services/TaskServiceImpl.java:60 | Inserting into rounds in deadline order keeps them in deadline order. |
| RoundOrder.SortByDeadline | competition-hub-backend/competition-hub/src/main/java/backend/competition_hub/services/TaskServiceImpl.java:60 | The sort returns a permutation of the rounds (same multiset) in non-decreasing deadline order. |
| RoundOrder.SortOrderPicks | competition-hub-backend/competition-hub/src/main/java/backend/competition_hub/services/TaskServiceImpl.java:153 | The sorted copy holds references to the stored rounds: its j-th entry is the stored round at position `SortOrder(rs)[j]`, and distinct entries come from distinct stored positions. |
| RoundOrder.SortOrderOfSorted | competition-hub-backend/competition-hub/src/main/java/backend/competition_hub/services/TaskServiceImpl.java:153 | On rounds already in deadline order, each entry of the sorted copy is the stored round at the same position. |
| RoundOrder.SortIsStable | competition-hub-backend/competition-hub/src/main/java/backend/competition_hub/services/TaskServiceImpl.java:60 | Rounds sharing a deadline keep their relative order, as `List.sort` promises. |
| RoundOrder.SortSortedIsIdentity | competition-hub-backend/competition-hub/src/main/java/backend/competition_hub/services/TaskServiceImpl.java:153 | Re-sorting rounds already in deadline order, as every activation does, leaves them as they are. |
| RoundOrder.FirstActive | competition-hub-backend/competition-hub/src/main/java/backend/competition_hub/services/TaskServiceImpl.java:156-165 | The index found is an active round with no active round before it; nothing is found exactly when no round is active. |
| RoundOrder.SortKeepsActiveCount | competition-hub-backend/competition-hub/src/main/java/backend/competition_hub/services/TaskServiceImpl.java:153-165 | Sorting neither adds nor removes active rounds. |
| RoundOrder.SingleActiveIndex | competition-hub-backend/competition-hub/src/main/java/backend/competition_hub/services/TaskServiceImpl.java:156-165 | With exactly one active round, the first active index exists and is the only active one. |
| RoundOrder.SortPermutesContents | competition-hub-backend/competition-hub/src/main/java/backend/competition_hub/services/TaskServiceImpl.java:60 | Sorting permutes the rounds' ids, descriptions, deadlines and activation times. |
| TaskService.Arrange | competition-hub-backend/competition-hub/src/main/java/backend/competition_hub/services/TaskServiceImpl.java:61-65 | Each round is re-parented to the task, and only the round at position 0 is active. |
| TaskService.CreateTask | competition-hub-backend/competition-hub/src/main/java/backend/competition_hub/services/TaskServiceImpl.java:57-68 | Creation fails only when a round-less task has no deadline. Otherwise the new task is stored under its id and nothing else changes. Its rounds are a permutation of the ones sent, in deadline order, with only the first active; its deadline is the first round's. A task without rounds is stored as sent. |
| TaskService.CreateTaskKeepsConsistent | competition-hub-backend/competition-hub/src/main/java/backend/competition_hub/services/TaskServiceImpl.java:57-68 | After creation, every task still sits under its id, satisfies its column constraints and owns its rounds. |
| TaskService.Upsert | competition-hub-backend/competition-hub/src/main/java/backend/competition_hub/services/TaskServiceImpl.java:83-84 | Writing a round stores it, keeps every round with another id, and adds nothing else. |
| TaskService.UpsertAllContents | competition-hub-backend/competition-hub/src/main/java/backend/competition_hub/services/TaskServiceImpl.java:79-85 | Within the edited task, writing the supplied rounds leaves three things: each supplied round that no later one overrides is stored under the task; stored rounds whose id was not supplied stay; nothing else appears. What the write does to other tasks is stated by `TaskService.UpdateTask` and `TaskService.UpdateTaskMovesRounds`. |
| TaskService.UpdateTask | competition-hub-backend/competition-hub/src/main/java/backend/competition_hub/services/TaskServiceImpl.java:72-91 | A missing task gives 404. A found task fails with 500 exactly when it has no rounds, none are supplied and the request carries no deadline. The update sets title and description and keeps creator, evaluation type, eliminated list and view time. The task's rounds are the stored ones overwritten by the supplied ones, and the saved task is synchronised. Every other task loses the rounds whose ids were supplied and is otherwise unchanged. |
| TaskService.UpdateTaskKeepsConsistent | competition-hub-backend/competition-hub/src/main/java/backend/competition_hub/services/TaskServiceImpl.java:72-91 | The updated task is consistent, with all its rounds attached to it. The whole database stays consistent when no supplied id belongs to a round of another task. |
| TaskService.UpdateTaskMovesRounds | competition-hub-backend/competition-hub/src/main/java/backend/competition_hub/services/TaskServiceImpl.java:79-84 | A supplied round written under the edited task leaves every other task: another task keeps exactly its rounds whose ids were not supplied. |
| TaskService.UpdateTaskLeavesDeadline | competition-hub-backend/competition-hub/src/main/java/backend/competition_hub/services/TaskServiceImpl.java:79-87 | A task that loses rounds to an update keeps its stored application deadline, since it is not saved again. That deadline is still no later than any round it has left, but may now be earlier than all of them. |
| TaskService.UpsertAllEmpty | competition-hub-backend/competition-hub/src/main/java/backend/competition_hub/services/TaskServiceImpl.java:79-85 | Writing the supplied rounds leaves the task without rounds exactly when it had none and none were supplied. |
| TaskService.TouchView | competition-hub-backend/competition-hub/src/main/java/backend/competition_hub/services/TaskServiceImpl.java:121-127 | A missing task gives 404 (iff). A stored task fails with 500 exactly when it has neither rounds nor a deadline. Otherwise the task's view time becomes now and the task is saved, which re-synchronises its deadline from its rounds; no other task and no application changes. |
| TaskService.TouchViewKeepsConsistent | competition-hub-backend/competition-hub/src/main/java/backend/competition_hub/services/TaskServiceImpl.java:121-127 | In a consistent database touching succeeds, changes only the view time, and keeps the database consistent. |
| TaskService.TouchViewResyncs | competition-hub-backend/competition-hub/src/main/java/backend/competition_hub/entities/Task.java:58-68 | Touching a task whose stored deadline went stale brings it back to the earliest round deadline, so the task is consistent again. |
| TaskService.TouchViewIdempotent | competition-hub-backend/competition-hub/src/main/java/backend/competition_hub/services/TaskServiceImpl.java:121-127 | Touching twice at the same instant is the same as touching once. |
| TaskService.EliminateApplicants | competition-hub-backend/competition-hub/src/main/java/backend/competition_hub/services/TaskServiceImpl.java:131-140 | A missing task gives 404 (iff). A stored task fails with 500 exactly when it has neither rounds nor a deadline. Otherwise the task's eliminated list becomes exactly the list sent and the task is saved, re-synchronising its deadline; no other task and no application changes. |
| TaskService.EliminateKeepsConsistent | competition-hub-backend/competition-hub/src/main/java/backend/competition_hub/services/TaskServiceImpl.java:131-140 | In a consistent database eliminating succeeds, changes only the task's list, and keeps the database consistent. |
| TaskService.EliminationNotMonotone | competition-hub-backend/competition-hub/src/main/java/backend/competition_hub/services/TaskServiceImpl.java:136 | Sending an empty list un-eliminates everyone: the server keeps no union. |
| TaskService.EliminateIdempotent | competition-hub-backend/competition-hub/src/main/java/backend/competition_hub/services/TaskServiceImpl.java:131-140 | Sending the same list twice is the same as sending it once. |
| TaskService.Leave | competition-hub-backend/competition-hub/src/main/java/backend/competition_hub/services/TaskServiceImpl.java:179-181 | The round left becomes inactive and keeps its id and deadline. It takes the stamp when one is given, and keeps its old activation time otherwise. |
| TaskService.Advance | competition-hub-backend/competition-hub/src/main/java/backend/competition_hub/services/TaskServiceImpl.java:144-188 | The checks, in order: no rounds gives 400; no active round gives 400; a current round due today or later gives 403; a current round that is last gives 409. The current round is the first active one in a deadline-sorted copy of the list. On success the current round is left and the next one in that copy activated, each at its own stored position; the stored order is kept. |
| TaskService.StepAt | competition-hub-backend/competition-hub/src/main/java/backend/competition_hub/services/TaskServiceImpl.java:179-184 | Stepping from the i-th round in deadline order changes only two stored rows, the ones the sorted copy holds at i and i+1: the first is left and the second activated. Every other row and the stored order stay. |
| TaskService.Activate | competition-hub-backend/competition-hub/src/main/java/backend/competition_hub/services/TaskServiceImpl.java:144-188 | A missing task gives 404 (iff). A refusal of the rounds step carries the same status. On success only that task's rounds change, and only in their active flags and stamps, each row at its stored position. |
| TaskService.ActivateNextRound | competition-hub-backend/competition-hub/src/main/java/backend/competition_hub/services/TaskServiceImpl.java:179-184 | On success the stored row of the round that was current (by id, in deadline order) is inactive and stamped with now, the stored row of the next round in deadline order is active, and every other row is unchanged, all at their stored positions. |
| TaskService.ControllerActivateNextRound | competition-hub-backend/competition-hub/src/main/java/backend/competition_hub/controllers/TaskController.java:143-187 | The same gate and outcome, rows at their stored positions, but no round's activation time changes. |
| TaskService.LastRoundNotDueIsForbidden | competition-hub-backend/competition-hub/src/main/java/backend/competition_hub/services/TaskServiceImpl.java:169-176 | A sole active round that is not yet due is refused with 403, not 409: the deadline gate comes first. |
| TaskService.AdvanceKeepsSingleActive | competition-hub-backend/competition-hub/src/main/java/backend/competition_hub/services/TaskServiceImpl.java:179-184 | With exactly one active round, a successful activation leaves exactly one: the stored row of the next round in deadline order. |
| TaskService.AdvanceSortedStep | competition-hub-backend/competition-hub/src/main/java/backend/competition_hub/services/TaskServiceImpl.java:153-184 | On sorted rounds with round k active, a successful activation steps from k to k+1, and round k was past due. |
| TaskService.SteppedAtFacts | competition-hub-backend/competition-hub/src/main/java/backend/competition_hub/services/TaskServiceImpl.java:179-184 | One step keeps the deadline order, ids and deadlines, moves the only active flag from k to k+1, and touches only round k's stamp. |
| TaskService.RunActivations | competition-hub-backend/competition-hub/src/main/java/backend/competition_hub/services/TaskServiceImpl.java:144-188 | A run of successful activations never removes the task. |
| TaskService.RunActivationsRounds | competition-hub-backend/competition-hub/src/main/java/backend/competition_hub/services/TaskServiceImpl.java:144-188 | A run of activations on the database succeeds exactly when the same run on the task's rounds does, and gives the same rounds. |
| TaskService.RunShape | competition-hub-backend/competition-hub/src/main/java/backend/competition_hub/services/TaskServiceImpl.java:179-182 | n successful activations from round k leave round k+n the only active one. The order, ids and deadlines are kept. |
| TaskService.RunStamps | competition-hub-backend/competition-hub/src/main/java/backend/competition_hub/services/TaskServiceImpl.java:180-181 | Each round left carries the time of the call that left it, and no other stamp changes. |
| TaskService.CreateThenActivate | competition-hub-backend/competition-hub/src/main/java/backend/competition_hub/services/TaskServiceImpl.java:57-68 | From a freshly created task, n successful activations (n is less than the number of rounds) leave round n the only active one, with rounds 0..n-1 stamped in call order. |
| TaskService.ActivateKeepsConsistent | competition-hub-backend/competition-hub/src/main/java/backend/competition_hub/services/TaskServiceImpl.java:179-186 | Activation keeps the database consistent: deadlines do not move, so the synchronised deadline still holds. |
| TaskService.MinDeadlineSameMembers | competition-hub-backend/competition-hub/src/main/java/backend/competition_hub/entities/Task.java:62-66 | The earliest deadline depends only on which rounds there are, not on their order. |
| ApplicationRepository.FindByTaskId | competition-hub-backend/competition-hub/src/main/java/backend/competition_hub/repositories/ApplicationRepository.java:15 | Exactly the applications of the task, unchanged. |
| ApplicationRepository.FindByUserId | competition-hub-backend/competition-hub/src/main/java/backend/competition_hub/repositories/ApplicationRepository.java:17 | Exactly the applications with the user id, unchanged. |
| ApplicationRepository.FindByTaskAndUserName | competition-hub-backend/competition-hub/src/main/java/backend/competition_hub/repositories/ApplicationRepository.java:51 | Exactly the applications of the task with the user name, unchanged. |
| ApplicationRepository.FindersCompose | competition-hub-backend/competition-hub/src/main/java/backend/competition_hub/repositories/ApplicationRepository.java:15-51 | Filtering by task first and then by name gives the combined finder. |
| ApplicationRepository.GroupCounts | competition-hub-backend/competition-hub/src/main/java/backend/competition_hub/repositories/ApplicationRepository.java:19-25 | One row per stored task with at least one matching application, carrying the task's title and the positive number of matching applications. |
| ApplicationRepository.NewReviewCounts | competition-hub-backend/competition-hub/src/main/java/backend/competition_hub/repositories/ApplicationRepository.java:19-26 | A task has a row iff one of the user's reviewed applications on it was never viewed or was viewed before the review was written; the count is positive. |
| ApplicationRepository.UnseenEliminationCounts | competition-hub-backend/competition-hub/src/main/java/backend/competition_hub/repositories/ApplicationRepository.java:28-37 | A task has a row iff it eliminated the user and one of the user's applications on it has not marked the elimination seen. |
| ApplicationRepository.MarkEliminationSeen | competition-hub-backend/competition-hub/src/main/java/backend/competition_hub/repositories/ApplicationRepository.java:39-49 | Sets the seen flag on exactly the user's unseen applications on that task, when the task has eliminated the user. Returns how many rows that is. Tasks and the set of applications are unchanged. |
| ApplicationRepository.MarkEliminationSeenTwice | competition-hub-backend/competition-hub/src/main/java/backend/competition_hub/repositories/ApplicationRepository.java:41-49 | A second call changes nothing and reports 0 rows. |
| ApplicationRepository.MarkEliminationSeenClears | competition-hub-backend/competition-hub/src/main/java/backend/competition_hub/repositories/ApplicationRepository.java:28-49 | After marking, the task is gone from the user's unseen eliminations, and every other task is there exactly when it was before. |
| ApplicationRepository.MarkEliminationSeenScope | competition-hub-backend/competition-hub/src/main/java/backend/competition_hub/repositories/ApplicationRepository.java:44-45 | Applications of other users or other tasks are untouched. |
| ApplicationService.FindRound | competition-hub-backend/competition-hub/src/main/java/backend/competition_hub/services/ApplicationServiceImpl.java:62-65 | The first round of the task with that id; nothing exactly when no round has it. |
| ApplicationService.StoredFileName | competition-hub-backend/competition-hub/src/main/java/backend/competition_hub/services/ApplicationServiceImpl.java:87 | The stored name starts with the user name and ends with "_" and the original name; without a round it is exactly those joined. |
| ApplicationService.StoredFileNamesDistinct | competition-hub-backend/competition-hub/src/main/java/backend/competition_hub/services/ApplicationServiceImpl.java:87 | One user's uploads of the same file for different rounds (or for the task) get different names. |
| ApplicationService.StoredFileNamesCollideAcrossUsers | competition-hub-backend/competition-hub/src/main/java/backend/competition_hub/services/ApplicationServiceImpl.java:86-88 | Names of different users can collide in one task directory: "a_R1" uploading `x` to the task and "a" uploading `x` to round 1 both get "a_R1_x", so the later file overwrites the earlier. |
| ApplicationService.RoundTagInjective | competition-hub-backend/competition-hub/src/main/java/backend/competition_hub/services/ApplicationServiceImpl.java:87 | The "_R" tag determines the round id (or its absence). |
| ApplicationService.UploadCore | competition-hub-backend/competition-hub/src/main/java/backend/competition_hub/services/ApplicationServiceImpl.java:43-105 | The first failing check decides the answer: no file 400, no task 400, eliminated 403, round not in the task 400, round past due 403, round inactive 403 (when checked), storage failure 500. Success iff none fails. Success adds exactly one new, unreviewed application under the stored file path, stamped now. |
| ApplicationService.EliminatedUserRefused | competition-hub-backend/competition-hub/src/main/java/backend/competition_hub/services/ApplicationServiceImpl.java:53-55 | An eliminated user is refused with 403 and no file is written, with or without a round, by the service and by the controller. |
| ApplicationService.ControllerUploadAcceptsMore | competition-hub-backend/competition-hub/src/main/java/backend/competition_hub/controllers/ApplicationController.java:48-119 | The controller accepts everything the service accepts, with the same result. It accepts more only uploads to an inactive round of the task. |
| ApplicationService.UploadTwiceKeepsBoth | competition-hub-backend/competition-hub/src/main/java/backend/competition_hub/services/ApplicationServiceImpl.java:91-98 | No duplicate check: a repeated upload succeeds again and both applications are kept, pointing at the same file path. |
| ApplicationService.UploadForRoundCore | competition-hub-backend/competition-hub/src/main/java/backend/competition_hub/services/ApplicationServiceImpl.java:109-156 | No file gives 400. The file is written before any other check, so a storage failure gives 500 and otherwise the file is written. Then: no task 400, round not in the task 400, inactive round 403 (when checked). Success stores one application under the round's task. |
| ApplicationService.UploadForRoundIgnoresUserAndDate | competition-hub-backend/competition-hub/src/main/java/backend/competition_hub/services/ApplicationServiceImpl.java:109-156 | Neither the user's elimination nor the date affects the per-round outcome. |
| ApplicationService.UploadForRoundSharesPath | competition-hub-backend/competition-hub/src/main/java/backend/competition_hub/services/ApplicationServiceImpl.java:115-120 | Two users uploading files with the same name to the same round write the same path. |
| ApplicationService.UploadForRoundIsWeaker | competition-hub-backend/competition-hub/src/main/java/backend/competition_hub/services/ApplicationServiceImpl.java:109-156 | Every round upload the task-level service accepts, the per-round service accepts too. |
| ApplicationService.UploadForRoundFilesUnderTask | competition-hub-backend/competition-hub/src/main/java/backend/competition_hub/services/ApplicationServiceImpl.java:143-144 | In a consistent database the stored application belongs to the requested task. |
| ApplicationService.RequestText | competition-hub-backend/competition-hub/src/main/java/backend/competition_hub/services/ApplicationServiceImpl.java:203 | The "text" entry when the key is present, even if null; otherwise the "review" entry. |
| ApplicationService.ParsePoints | competition-hub-backend/competition-hub/src/main/java/backend/competition_hub/services/ApplicationServiceImpl.java:204-212 | Missing, null or blank points mean none. Text `Integer.valueOf` rejects fails the request. Otherwise the result is a 32-bit integer. |
| ApplicationService.KeepText | competition-hub-backend/competition-hub/src/main/java/backend/competition_hub/services/ApplicationServiceImpl.java:216-224 | Blank text is stored as null; other text is kept as it is. |
| ApplicationService.ReviewFor | competition-hub-backend/competition-hub/src/main/java/backend/competition_hub/services/ApplicationServiceImpl.java:214-236 | TEXT stores the kept text and clears the points. POINTS requires points in 0..10 and clears the text. BOTH accepts absent points or points in 0..10, and keeps both fields. |
| ApplicationService.UpdateReview | competition-hub-backend/competition-hub/src/main/java/backend/competition_hub/services/ApplicationServiceImpl.java:186-242 | A missing application gives 404 (iff). No task, unparsable points or a refused review gives 400. Success writes exactly the gated review and stamps the review time when a stamp is given. |
| ApplicationService.UpdateReviewStoresValidReview | competition-hub-backend/competition-hub/src/main/java/backend/competition_hub/services/ApplicationServiceImpl.java:214-236 | After success the points are absent or in 0..10 and the text is absent or not blank. A TEXT task has no points; a POINTS task has points and no text. |
| ApplicationService.ReviewResubmitRoundTrip | competition-hub-backend/competition-hub/src/main/java/backend/competition_hub/services/ApplicationServiceImpl.java:203-236 | Sending a stored review back (the points printed as text) succeeds and stores the same review. |
| ApplicationService.TouchReviewView | competition-hub-backend/competition-hub/src/main/java/backend/competition_hub/services/ApplicationServiceImpl.java:268-282 | 404 iff the user has no application on the task. Otherwise each of those applications gets now as its review watermark, and nothing else changes. |
| ApplicationService.TouchReviewViewClears | competition-hub-backend/competition-hub/src/main/java/backend/competition_hub/services/ApplicationServiceImpl.java:268-282 | When no review on the task was written after now, the task drops out of the user's new reviews, and other tasks are unaffected. |
| ApplicationService.ServiceReviewAfterViewIsNew | competition-hub-backend/competition-hub/src/main/java/backend/competition_hub/services/ApplicationServiceImpl.java:238 | A service review written after the user last looked makes the task reappear among the user's new reviews. |
| ApplicationService.ControllerReviewAfterViewIsNotNew | competition-hub-backend/competition-hub/src/main/java/backend/competition_hub/controllers/ApplicationController.java:202-262 | A controller review never sets the review time, so an application already looked at does not become new again. |
| ApplicationService.TouchEliminationView | competition-hub-backend/competition-hub/src/main/java/backend/competition_hub/services/ApplicationServiceImpl.java:298-301 | Always succeeds. Afterwards the task is not among the user's unseen eliminations. Tasks and the set of applications are unchanged, every application of another user or another task is unchanged, and the others at most get their seen flag set. |
| ApplicationService.LastActivation | competition-hub-backend/competition-hub/src/main/java/backend/competition_hub/services/ApplicationServiceImpl.java:315-319 | The latest activation time among the rounds, absent iff no round was ever left. |
| ApplicationService.ListRoundActivationNotifications | competition-hub-backend/competition-hub/src/main/java/backend/competition_hub/services/ApplicationServiceImpl.java:304-332 | One entry per application of the user (not per task), with count 1 and the task's title. Applications on tasks that eliminated the user are skipped. An entry exists iff some round was left after the watermark, a missing watermark counting as the epoch. |
| ApplicationService.TouchRoundActivationView | competition-hub-backend/competition-hub/src/main/java/backend/competition_hub/services/ApplicationServiceImpl.java:341-351 | Exactly the user's applications on the task get now as their watermark. With none, the database is unchanged. |
| ApplicationService.TouchRoundActivationViewClears | competition-hub-backend/competition-hub/src/main/java/backend/competition_hub/services/ApplicationServiceImpl.java:304-351 | When no round of the task was left after now, the user's entries for that task disappear and their other entries are unaffected. |
| ApplicationService.ServiceActivationNotifies | competition-hub-backend/competition-hub/src/main/java/backend/competition_hub/services/ApplicationServiceImpl.java:304-332 | After a service activation at now, every non-eliminated applicant to the task whose watermark is before now gets an entry. |
| ApplicationService.ControllerActivationIsSilent | competition-hub-backend/competition-hub/src/main/java/backend/competition_hub/controllers/TaskController.java:143-187 | The controller's activation notifies nobody: every user's round-activation list stays the same. |
| Text.NatToString | competition-hub/src/Components/AppHeader.tsx:149 | The decimal text of a natural number is digits without a leading zero and denotes the number. |
| Text.IntToStringInjective | competition-hub/src/Components/AppHeader.tsx:98 | Different integers print differently. |
| Text.ParseJavaInt | competition-hub-backend/competition-hub/src/main/java/backend/competition_hub/services/ApplicationServiceImpl.java:208 | `Integer.valueOf` succeeds exactly on an optional sign followed by one or more decimal digits whose signed value fits in 32 bits, and then gives that signed value. |
| Text.ParseJavaIntOfIntToString | competition-hub-backend/competition-hub/src/main/java/backend/competition_hub/services/ApplicationServiceImpl.java:208 | A printed 32-bit integer parses back to itself. |
| Text.ParseJavaIntSign | competition-hub-backend/competition-hub/src/main/java/backend/competition_hub/services/ApplicationServiceImpl.java:208 | A parsed value is negative only after a minus sign, and unsigned digits parse to the number they spell. |
| Text.JsTrim | competition-hub/src/Components/NewTask.tsx:31-34 | The trimmed text is a slice of the input with only whitespace cut from either side, and it neither starts nor ends with whitespace. |
| Text.JsTrimEmptyIffWhitespace | competition-hub/src/Components/NewTask.tsx:31-34 | Text trims to nothing exactly when it is whitespace only. |
| Text.Prefix | competition-hub/src/Components/TaskUtils.ts:4 | `slice(0, n)` is a prefix of length n, or the whole of a shorter text. |
| Text.LexLessTotal | competition-hub/src/Components/Task.tsx:97 | The order `sort` uses relates any two different names. |
| Text.LexLessTransitive | competition-hub/src/Components/Task.tsx:97 | That order is transitive. |
| Seqs.Dedup | competition-hub/src/Components/Task.tsx:208 | `Array.from(new Set(s))` has no duplicates and the same members. |
| Seqs.DedupPrefix | competition-hub/src/Components/Task.tsx:208 | Deduplicating `a + b` starts with the deduplication of `a`. |
| Seqs.Filter | competition-hub/src/Pages/Profile.tsx:47 | `filter` keeps exactly the members that satisfy the predicate. |
| Seqs.FilterIsSubsequence | competition-hub/src/Pages/ActiveTasks.tsx:31 | Filtering keeps the surviving elements in their order. |
| Seqs.FirstMinimum | competition-hub/src/Components/TaskUtils.ts:32-38 | The first qualifying element with the smallest key: no later element has a smaller key, and no earlier one has the same key. |
| JsMap.Put | competition-hub/src/Pages/Apply.tsx:34 | `set` on a present key keeps the key's place and replaces its value; on a new key it appends the entry. |
| JsMap.Build | competition-hub/src/Pages/Apply.tsx:31-38 | Building a map from entries keeps each key once, at its first entry's place, with the value of its last entry. |
| JsMap.BuildKeysOnce | competition-hub/src/Pages/Profile.tsx:31-41 | A map built from entries holds each key of the entries exactly once, and no other key. |
| JsMap.BuildConcat | competition-hub/src/Pages/Apply.tsx:32 | The keys set by the direct applications keep their leading places when the round applications follow. |
| JsMap.LastValueConcat | competition-hub/src/Pages/Apply.tsx:32-35 | A key set by the later batch takes the later batch's value. |
| ClientDates.Split | competition-hub/src/Components/TaskUtils.ts:4 | `split` gives at least one piece, none holding the separator. |
| ClientDates.JoinSplit | competition-hub/src/Components/TaskUtils.ts:4 | Joining the pieces with the separator gives the text back. |
| ClientDates.SplitJoin | competition-hub/src/Components/TaskUtils.ts:4 | Splitting a join of separator-free pieces gives the pieces back. |
| ClientDates.JsNumber | competition-hub/src/Components/Task.tsx:194 | `Number` of whitespace-only text is 0, and otherwise reads the signed decimal in the trimmed text. |
| ClientDates.JsNumberOfIntToString | competition-hub/src/Components/AppHeader.tsx:149 | `Number` reads back the decimal text of every integer. |
| ClientDates.LocalDayIsCalendarDay | competition-hub/src/Components/TaskUtils.ts:5 | For a month 1..12 and a year outside 0..99, `new Date(y, m - 1, d)` is that calendar day. |
| ClientDates.PartOr | competition-hub/src/Components/TaskUtils.ts:4-5 | A missing part, 0 and `NaN` all fall back, so the value is never 0 unless the fallback is. |
| ClientDates.LocalDateParts | competition-hub/src/Components/TaskUtils.ts:3-6 | The year, month and day read are never 0. |
| ClientDates.ParseLocalDateEmpty | competition-hub/src/Components/TaskUtils.ts:4-5 | The empty date parses as 1970-01-01, day 0. |
| ClientDates.ParseFirstTenOnly | competition-hub/src/Components/TaskUtils.ts:4 | Everything after the tenth character is ignored. |
| ClientDates.ParseIsoParts | competition-hub/src/Components/TaskUtils.ts:3-6 | A well-formed "YYYY-MM-DD" (with anything after it) reads its own year, month and day. A zero part falls back to 1970, January or the 1st. |
| ClientDates.MonthLength | competition-hub/src/Components/TaskUtils.ts:5 | The first of the next month lies one month length after the first of this month, across a year's end too. |
| ClientDates.CalendarOrder | competition-hub/src/Components/TaskUtils.ts:43-46 | For real dates, a smaller day number is exactly an earlier date in year, month, day order. |
| ClientDates.DateOnly | competition-hub/src/Components/TaskUtils.ts:42 | `new Date` of date-only text is a valid date exactly when the text is a real "YYYY-MM-DD" date. |
| ClientDates.IsBeforeTodayIsCalendarOrder | competition-hub/src/Components/TaskUtils.ts:41-47 | From the year 100 on, `isBeforeToday` holds iff the date is strictly before today, and `parseLocalDate` reads the same day. |
| ClientDates.GetNextUpcomingDeadline | competition-hub/src/Components/TaskUtils.ts:28-39 | None iff no round has a non-empty deadline that is today or later. Otherwise the result is the first ten characters of one of those deadlines, is not before today, and is no later than any other such deadline; among deadlines on the same day it is the first in list order, as the stable sort gives. |
| ClientDates.DeadlineTodayIsUpcoming | competition-hub/src/Components/TaskUtils.ts:35 | A deadline falling today is upcoming, and the next deadline is then today. |
| ClientTask.ActiveRound | competition-hub/src/Components/Task.tsx:93 | The first active round; none iff no round is active. |
| ClientTask.SortNames | competition-hub/src/Components/Task.tsx:97 | Sorting distinct names gives the same names in strictly increasing order. |
| ClientTask.UserNamesOn | competition-hub/src/Components/Task.tsx:94-96 | Exactly the names of the applications on the round. |
| ClientTask.ActiveRoundUsernames | competition-hub/src/Components/Task.tsx:93-97 | Strictly increasing (hence duplicate-free). Empty without an active round; otherwise exactly the names of those who applied to the active round. |
| ClientTask.StrictlySortedUnique | competition-hub/src/Components/Task.tsx:97 | Two strictly sorted lists with the same members are equal. |
| ClientTask.ActiveRoundUsernamesOrderFree | competition-hub/src/Components/Task.tsx:93-97 | The applicant list depends only on which applications there are, not their order. |
| ClientTask.Toggle | competition-hub/src/Components/Task.tsx:198-205 | Toggling adds the name iff it was absent, keeps every other member, and keeps the selection duplicate-free. |
| ClientTask.ToggleTwice | competition-hub/src/Components/Task.tsx:198-205 | Toggling twice restores the members. The list comes back unchanged when the name was absent. When it was present, the name moves to the end. |
| ClientTask.EliminationUnion | competition-hub/src/Components/Task.tsx:208 | The list sent is duplicate-free, holds exactly the eliminated and the selected names, and starts with the deduplicated eliminated list. |
| ClientTask.SaveElimination | competition-hub/src/Components/Task.tsx:207-221 | After a success the sent list becomes the eliminated list and the selection is cleared; after a failure the state is kept. |
| ClientTask.SaveEliminationStable | competition-hub/src/Components/Task.tsx:207-214 | Saving an empty selection sends the eliminated list unchanged, and saving again after a success sends the same list. |
| ClientTask.ClampPoints | competition-hub/src/Components/Task.tsx:193-196 | Empty input gives null and input that is not a number gives `NaN`. Any other input is clamped into 0..10 and is itself when already in range. |
| ClientTask.ClampPointsKeepsValidScore | competition-hub/src/Components/Task.tsx:194 | Typing a score from 0 to 10 gives that score. |
| ClientTask.PointsChanged | competition-hub/src/Components/Task.tsx:193-196 | Only the application with that id gets the clamped points. |
| ClientTask.LocalReviewUpdate | competition-hub/src/Components/Task.tsx:172-174 | Only the application with that id gets the new text and points. |
| ClientTask.LocalReviewUpdateIdempotent | competition-hub/src/Components/Task.tsx:172-174 | Applying the same local review update twice is the same as once. |
| ClientTask.CleanRound | competition-hub/src/Components/Task.tsx:139-142 | A cleaned round keeps id, description and active flag, drops its applications, and has a deadline of at most ten characters that is a prefix of the original. |
| ClientTask.SaveBody | competition-hub/src/Components/Task.tsx:137-149 | The body carries the title, description and cleaned rounds, and carries the application deadline (cut to ten characters) iff there are no rounds. |
| ClientTask.SaveBodyIdempotent | competition-hub/src/Components/Task.tsx:139-149 | Cleaning what was sent and sending it again gives the same body. |
| ClientTask.ActivateOffered | competition-hub/src/Components/Task.tsx:401-404 | The button shows iff the viewer may edit, is not editing, a round is active and its deadline is before today. The deadline is then a real date. |
| ApplicantView.UserApplicationForRound | competition-hub/src/Components/TaskApplicantView.tsx:63-65 | The user's first application on the round; none iff they have none there. |
| ApplicantView.ReviewBoxOf | competition-hub/src/Components/TaskApplicantView.tsx:143-168 | The box shows iff the text is non-empty or points are set. It shows the text only under TEXT or BOTH, and the points only under POINTS or BOTH. |
| ApplicantView.Card | competition-hub/src/Components/TaskApplicantView.tsx:59-221 | The card shows the submission iff the user applied to the round. It shows the upload form iff they did not, the round is active and they are not eliminated. Submit is enabled iff a file was chosen. |
| ApplicantView.ApplicantViewOf | competition-hub/src/Components/TaskApplicantView.tsx:32-59 | Nothing for a task without rounds. Otherwise the elimination notice iff eliminated, and one card per round in order. |
| ApplicantView.CardsExclusive | competition-hub/src/Components/TaskApplicantView.tsx:60-175 | No card shows both the submission and the upload form. An eliminated user, or an inactive round, gets no upload form. |
| ApplicantView.SubmittingHidesUpload | competition-hub/src/Components/TaskApplicantView.tsx:60-175 | Once the user's application on the round appears, the upload form is replaced by the submission. |
| NewTaskForm.AddRound | competition-hub/src/Components/NewTask.tsx:22-24 | Adds a blank round at the end and changes nothing else. |
| NewTaskForm.ChangeRound | competition-hub/src/Components/NewTask.tsx:26-28 | Only the named field of the given round changes. |
| NewTaskForm.RemoveRound | competition-hub/src/Components/NewTask.tsx:70-72 | The other rounds stay in order; an index outside the list changes nothing. |
| NewTaskForm.RemoveAfterAdd | competition-hub/src/Components/NewTask.tsx:22-72 | Removing the round just added gives the form back. |
| NewTaskForm.ChangeRoundToSameValue | competition-hub/src/Components/NewTask.tsx:26-28 | Setting a field to its current value changes nothing. |
| NewTaskForm.Submit | competition-hub/src/Components/NewTask.tsx:30-50 | The form is sent iff the trimmed title and description are non-empty and there are rounds or a deadline. The two refusals carry their own messages. The body copies the form, names the user as creator, and has an application deadline iff there are no rounds. |
| NewTaskForm.AfterSubmit | competition-hub/src/Components/NewTask.tsx:57-61 | Success resets the form to empty fields, no rounds and TEXT; failure keeps it. |
| NewTaskForm.EmptyFormIsRejected | competition-hub/src/Components/NewTask.tsx:31-61 | The reset form cannot be sent again as it is. |
| ApplyPage.RoundApplications | competition-hub/src/Pages/Apply.tsx:29 | Exactly the applications listed under some round. |
| ApplyPage.IdEntries | competition-hub/src/Pages/Apply.tsx:32-36 | One `set` per application with an id, keyed by that id. |
| ApplyPage.MergedValueIsLast | competition-hub/src/Pages/Apply.tsx:31-38 | For each id the merge keeps the last application carrying it. |
| ApplyPage.MergeByIdKeys | competition-hub/src/Pages/Apply.tsx:28-38 | Every merged application has an id. The merged ids are those of the input, each once, in the order of first appearance. Applications without an id are dropped. |
| ApplyPage.MergeByIdValues | competition-hub/src/Pages/Apply.tsx:31-38 | Each merged application is the last copy of its id in the input. |
| ApplyPage.RoundCopyWins | competition-hub/src/Pages/Apply.tsx:28-38 | An application a round lists appears in the merge as a round's copy, never the task's own. |
| ApplyPage.MyApplication | competition-hub/src/Pages/Apply.tsx:89 | The first application of the viewer; none iff they have none. |
| ApplyPage.RenderMyReview | competition-hub/src/Pages/Apply.tsx:91-145 | A review shows iff there is an application and an evaluation type, and, under TEXT the text is non-empty, under POINTS the points are set, under BOTH either. It shows what the round view would. |
| ApplyPage.TextTaskHidesPointsOnlyReview | competition-hub/src/Pages/Apply.tsx:97-98 | Points on a TEXT task: this page shows nothing while the round view shows an empty box. |
| ApplyPage.ApplyViewOf | competition-hub/src/Pages/Apply.tsx:160-203 | The page is editable iff the viewer created the task. The status card shows iff the viewer applied and the task has no rounds. The upload card shows iff the viewer is not the creator, has not applied, and the rounds are present and empty. |
| ApplyPage.FetchedTask | competition-hub/src/Pages/Apply.tsx:28-39 | The task the page holds is the served one with only its applications replaced; each of them has an id and comes from the task's own or its rounds' applications. |
| ApplyPage.FetchedViewOf | competition-hub/src/Pages/Apply.tsx:28-39 | On the fetched task, the status card shows only for a viewer with an application with an id among the served ones; on a task without rounds it shows for a viewer with such an application whose id no other served copy carries. |
| ApplyPage.StatusAndUploadExclusive | competition-hub/src/Pages/Apply.tsx:166-203 | The status and upload cards never show together, and the creator is never offered the upload card. |
| ActiveTasksPage.FirstRound | competition-hub/src/Pages/ActiveTasks.tsx:34 | The first round, present iff the task has rounds. |
| ActiveTasksPage.ActiveVisibleTasks | competition-hub/src/Pages/ActiveTasks.tsx:28-39 | Exactly the tasks whose deadline has not passed and that have no rounds or an active first round, in the server's order. |
| ActiveTasksPage.DeadlinePassedHides | competition-hub/src/Pages/ActiveTasks.tsx:32-37 | A task whose deadline has passed, or is not a date, is not listed. |
| ActiveTasksPage.FirstRoundClosedHides | competition-hub/src/Pages/ActiveTasks.tsx:34-37 | A task whose first round is inactive is not listed, whatever its deadline. |
| ActiveTasksPage.VisibleEarlier | competition-hub/src/Pages/ActiveTasks.tsx:32 | The list only shrinks as time passes. |
| ActiveTasksPage.VisibleReasons | competition-hub/src/Pages/ActiveTasks.tsx:37 | A listed task has a deadline still ahead and no rounds or an active first round. |
| ProfilePage.TaskOf | competition-hub/src/Pages/Profile.tsx:34-37 | The application's own task, else its round's task, else none. |
| ProfilePage.TaskEntries | competition-hub/src/Pages/Profile.tsx:33-39 | One `set` per application whose task is known, keyed by the task id. |
| ProfilePage.AppliedTasksSpec | competition-hub/src/Pages/Profile.tsx:31-42 | Each task id appears once. Every task an application points to appears, and each entry is such a task. |
| ProfilePage.AppliedTasksCount | competition-hub/src/Pages/Profile.tsx:41-82 | The applied count is the number of distinct tasks, however many applications per task. |
| ProfilePage.MyTasks | competition-hub/src/Pages/Profile.tsx:47 | Exactly the tasks the viewer created, in order. |
| ProfilePage.ProfileStats | competition-hub/src/Pages/Profile.tsx:25-94 | The applied count is 0 without a user id or after a failed fetch, and is the number of distinct applied tasks otherwise. The created count is the number of the viewer's tasks. |
| AppHeader.FromCounted | competition-hub/src/Components/AppHeader.tsx:34-47 | Each creator or review row becomes one entry of its kind, keeping the task id and count, with the kind's suffix on the title. |
| AppHeader.FromLoose | competition-hub/src/Components/AppHeader.tsx:52-67 | Each elimination or round row becomes one entry of its kind; a missing count counts as 1. |
| AppHeader.FetchNotifications | competition-hub/src/Components/AppHeader.tsx:26-75 | Empty when not logged in, without a user name, or after a failed fetch. Otherwise one entry per row of the four answers, grouped by kind in the fixed order. |
| AppHeader.TitleDetermines | competition-hub/src/Components/AppHeader.tsx:37-64 | The shown title determines both the task title and the kind of entry. |
| AppHeader.FetchTotal | competition-hub/src/Components/AppHeader.tsx:24-69 | The bell's total is the sum of the four answers' counts, each countless row counting 1. |
| AppHeader.CountlessRowsCountOne | competition-hub/src/Components/AppHeader.tsx:56-65 | Rows without a count add one each. |
| AppHeader.Badge | competition-hub/src/Components/AppHeader.tsx:148-149 | No badge iff the total is not positive. "99+" iff the total is above 99. Otherwise the badge reads back as the total. |
| AppHeader.ClickEntry | competition-hub/src/Components/AppHeader.tsx:77-99 | A click touches iff the user has a name and the entry is an elimination or a round opening. The touch is the matching one, for that task and user. The click then opens "/apply/" and the task id. |
| AppHeader.ClickOpensItsTask | competition-hub/src/Components/AppHeader.tsx:98 | Entries of different tasks open different pages. |
| ClientServer.ActiveRoundIsRendered | competition-hub/src/Components/Task.tsx:93 | With a single active round, the client's active round is the copy of the server's. |
| ClientServer.CurrentIsOnlyActive | competition-hub-backend/competition-hub/src/main/java/backend/competition_hub/services/TaskServiceImpl.java:153-165 | With a single active round, the server's current round is that round. |
| ClientServer.ActivationGateAgrees | competition-hub/src/Components/Task.tsx:401-404 | The button shows iff the server does not refuse with 403. When it shows, the server activates or answers 409 because the round is the last. |
| ClientServer.UploadFormIsAccepted | competition-hub/src/Components/Task.tsx:117-118 | The form posts to the controller's per-round endpoint. There, an upload to a round the client renders from the task is accepted, whether the round is open or closed, and is never refused with 403. The stored application is for that round and that round's task. |
| ClientServer.ServiceUploadRefusesClosed | competition-hub-backend/competition-hub/src/main/java/backend/competition_hub/services/ApplicationServiceImpl.java:109-156 | The service's per-round upload, which the client does not call, refuses with 403 exactly the rounds the client shows as closed, and accepts the open ones. |
| ClientServer.EliminationReachesServer | competition-hub/src/Components/Task.tsx:207-214 | The server stores exactly the list sent. It is duplicate-free and holds the eliminated and selected names, and it extends the stored list when the client was in sync. |
| ClientServer.DecodeRound | competition-hub-backend/competition-hub/src/main/java/backend/competition_hub/entities/Round.java:29-30 | A round of the body is read iff its deadline is a real date, keeping description and day. |
| ClientServer.DecodeCreateBody | competition-hub-backend/competition-hub/src/main/java/backend/competition_hub/controllers/TaskController.java:55-56 | The body is read iff every date in it is a real date. The task keeps the number of rounds and has a deadline iff the body has one. |
| ClientServer.SentFormIsCreated | competition-hub/src/Components/NewTask.tsx:30-50 | Every form the client sends, once its dates read, is created by the server. |
| ClientServer.RefusedFormFailsOnServer | competition-hub/src/Components/NewTask.tsx:36-39 | The form refused for lack of a deadline would be refused by the server with a 500. |
| ClientServer.ActivatedTaskLeavesList | competition-hub/src/Pages/ActiveTasks.tsx:34-35 | In a consistent database, after a successful activation the task is not listed at any time from the start of the activation day on: its application deadline, the earliest round deadline, is no later than the round just left, which was past due. |
| ClientServer.CreatedTaskListed | competition-hub/src/Pages/ActiveTasks.tsx:28-39 | A task just created with rounds is listed exactly while its first deadline lies ahead. |
| ClientServer.EliminationClickClears | competition-hub/src/Components/AppHeader.tsx:82-86 | Clicking an elimination entry sends the touch that removes the task from the user's unseen eliminations. |
| ClientServer.RoundClickClears | competition-hub/src/Components/AppHeader.tsx:87-91 | Clicking a round entry sends the touch that removes the user's entries for that task. |

## Left out

- File storage and download: the directory creation, the file write and `downloadFile` are I/O. A file is its original name, and whether the write fails is a parameter.
- `deleteTask`, `getTaskById`, `getAllTasks` and `getApplicationsByUser` are plain repository pass-throughs.
- The creator's new-application count (`getTasksWithNewApplicationCounts`) is not modelled: the query it calls is not among the repository files, and the service only maps its rows to DTOs.
- Authentication, HTTP plumbing, polling, alerts, page reloads and all rendering beyond which cards and values show.
- Clocks and the timezone: today and now are parameters, and the browser is taken to run in UTC, so local midnight and UTC midnight coincide.
- JPA and transactions: each endpoint is one atomic step, and there is no concurrency.
- Lists that JPA or JSON may leave null (rounds, eliminated applicants, round applications) are modelled as empty.
- A round's deadline is never null (its column is non-null), so the null check before the deadline gate cannot fire.
- ApplicationService.TouchRoundActivationView: all of the user's applications get one instant. The source reads the clock once per application.
- Text.ParseJavaInt: accepts only the ASCII digits `0`-`9`. `Integer.valueOf` also accepts the other Unicode decimal digits (such as `３` or `٣`); the model refuses those as malformed, where the source would accept them.
- ClientDates.GetNextUpcomingDeadline: ECMAScript's TimeClip is not modelled. A `new Date(y, m, d)` more than 8.64e15 ms from the epoch (after September 275760) is an Invalid Date, which the source never counts as upcoming; the model counts such a far date as upcoming.
- ClientDates.JsNumber: reads only whitespace or optionally signed decimal integers. Other numeric text, such as fractions, exponents and hex, counts as not a number.
- ClientDates.DateOnly: only the date-only text the server writes is parsed. Any other text counts as an Invalid Date.
- ClientTask.SortNames: compares characters, which matches the UTF-16 code-unit order `sort` uses for text in the Basic Multilingual Plane.
- ClientServer.DecodeCreateBody: a deadline that does not parse makes the request fail. Jackson's exact error response is not modelled.
- AppHeader.FetchNotifications: the creator and review rows are taken to always carry a count. Those endpoints always send one.
- ProfilePage.TaskOf: an application with neither a task nor a round's task contributes nothing.
- The loading flags and the error logging of the pages.
- The `Intl` date formatting used only for display.
