/** The persisted records of the competition hub (Task, Round, Application),
    the database that holds them, and the deadline synchronisation a Task
    runs every time it is saved. */
module Entities {
  import opened Wrappers

  type TaskId = int
  type RoundId = int
  type AppId = int

  /** A calendar date (`LocalDate`) as a day number; earlier dates are smaller. */
  type Day = int

  /** A point in time (`Instant`, `LocalDateTime`) as an integer; 0 is the epoch. */
  type Instant = int

  /** How a task's submissions are reviewed. */
  datatype EvaluationType = TEXT | POINTS | BOTH

  /** A stage of a task. `taskId` is the parent task (the column is not
      nullable, so every round belongs to exactly one task); `activatedAt`
      stays absent until the round is left by an activation. */
  datatype Round = Round(
    id: RoundId,
    taskId: TaskId,
    description: string,
    deadline: Day,
    isActive: bool,
    activatedAt: Option<Instant>)

  /** A competition task. `applicationDeadline` is the only nullable field
      among the required columns that the model keeps nullable: it may be
      missing from a request, and saving fills it from the rounds.
      `eliminatedApplicants` is a list, so a user name may appear twice. */
  datatype Task = Task(
    id: TaskId,
    title: string,
    description: string,
    applicationDeadline: Option<Day>,
    creator: string,
    evaluationType: EvaluationType,
    rounds: seq<Round>,
    creatorLastViewedAt: Option<Instant>,
    eliminatedApplicants: seq<string>)

  /** A submission. The task is required, the round optional; the review
      text and points are independently nullable, and so are the three
      watermarks the notification queries compare against. */
  datatype Application = Application(
    id: AppId,
    userId: string,
    userName: string,
    taskId: TaskId,
    roundId: Option<RoundId>,
    filePath: string,
    applicationDate: Instant,
    reviewText: Option<string>,
    reviewPoints: Option<int>,
    lastViewedReviewAt: Option<Instant>,
    reviewCreatedAt: Option<Instant>,
    eliminatedSeen: Option<bool>,
    lastRoundActivationViewAt: Option<Instant>)

  /** The database: each repository is a map from id to entity. */
  datatype Db = Db(tasks: map<TaskId, Task>, apps: map<AppId, Application>)

  /** `new Round()` with the given columns: a round starts inactive and has never been left. */
  function NewRound(id: RoundId, taskId: TaskId, description: string, deadline: Day): (r: Round)
    ensures !r.isActive && r.activatedAt.None?
    ensures r.id == id && r.taskId == taskId && r.description == description && r.deadline == deadline
  {
    Round(id, taskId, description, deadline, false, None)
  }

  /** An application as the upload endpoints build it: task, round, user
      and date set, and no review or watermark yet. */
  function NewApplication(id: AppId, taskId: TaskId, roundId: Option<RoundId>, userId: string,
                          userName: string, filePath: string, date: Instant): (a: Application)
    ensures a.id == id && a.taskId == taskId && a.roundId == roundId && a.applicationDate == date
    ensures a.userId == userId && a.userName == userName && a.filePath == filePath
    ensures !Reviewed(a)
    ensures a.lastViewedReviewAt.None? && a.reviewCreatedAt.None?
    ensures a.eliminatedSeen.None? && a.lastRoundActivationViewAt.None?
  {
    Application(id, userId, userName, taskId, roundId, filePath, date, None, None, None, None, None, None)
  }

  /** An application has been reviewed when either review field is set. */
  predicate Reviewed(a: Application) {
    a.reviewText.Some? || a.reviewPoints.Some?
  }

  // ---------------------------------------------------------------------
  // Deadline synchronisation (runs before every insert and update of a Task)
  // ---------------------------------------------------------------------

  /** The earliest deadline among some rounds. */
  function MinDeadline(rs: seq<Round>): (d: Day)
    requires |rs| > 0
    ensures exists i :: 0 <= i < |rs| && rs[i].deadline == d
    ensures forall i :: 0 <= i < |rs| ==> d <= rs[i].deadline
  {
    if |rs| == 1 then rs[0].deadline
    else
      var m := MinDeadline(rs[1..]);
      assert forall i :: 1 <= i < |rs| ==> rs[i] == rs[1..][i - 1];
      if rs[0].deadline <= m then rs[0].deadline else m
  }

  /** `syncDeadlineFromRounds`: a task with rounds takes the earliest round
      deadline as its application deadline; a task without rounds keeps
      the one it has. Nothing else changes. */
  function SyncDeadline(t: Task): (r: Task)
    ensures r == t.(applicationDeadline := r.applicationDeadline)
    ensures |t.rounds| == 0 ==> r == t
    ensures |t.rounds| > 0 ==> r.applicationDeadline.Some?
    ensures |t.rounds| > 0 ==> forall i :: 0 <= i < |t.rounds| ==> r.applicationDeadline.value <= t.rounds[i].deadline
    ensures |t.rounds| > 0 ==> exists i :: 0 <= i < |t.rounds| && t.rounds[i].deadline == r.applicationDeadline.value
  {
    if |t.rounds| > 0 then t.(applicationDeadline := Some(MinDeadline(t.rounds))) else t
  }

  /** A task whose application deadline is what saving it would set. */
  predicate Synced(t: Task) {
    |t.rounds| > 0 ==> t.applicationDeadline == Some(MinDeadline(t.rounds))
  }

  /** A task as it can sit in the database: synchronised, and with the
      non-nullable application deadline present. */
  predicate Persisted(t: Task) {
    Synced(t) && t.applicationDeadline.Some?
  }

  /** Saving twice synchronises no further than saving once. */
  lemma SyncDeadlineIdempotent(t: Task)
    ensures SyncDeadline(SyncDeadline(t)) == SyncDeadline(t)
    ensures Synced(SyncDeadline(t))
  {
  }

  /** `taskRepository.save`: synchronise, then insert or update. The
      application deadline column is not nullable, so a task with no rounds
      and no deadline is refused by the database (an uncaught exception,
      answered with 500). */
  function Save(t: Task): (r: Response<Task>)
    ensures r.Ok? <==> |t.rounds| > 0 || t.applicationDeadline.Some?
    ensures r.Ok? ==> r.value == SyncDeadline(t) && Persisted(r.value)
    ensures r.Err? ==> r == Err(ServerError, ConstraintViolation)
  {
    var s := SyncDeadline(t);
    if s.applicationDeadline.None? then Err(ServerError, ConstraintViolation) else Ok(s)
  }

  /** Saving a task that is already as stored changes nothing. */
  lemma SavePersistedIsIdentity(t: Task)
    requires Persisted(t)
    ensures Save(t) == Ok(t)
  {
  }
}
