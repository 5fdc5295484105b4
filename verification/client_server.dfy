/** How the client's decisions line up with what the server then does,
    for a client showing the server's current state: the activate button,
    the round upload form, the elimination list, the creation form, the
    public task list, and the notification entries. */
module ClientServer {
  import opened Wrappers
  import opened Seqs
  import opened Entities
  import opened RoundOrder
  import opened TaskService
  import opened ApplicationRepository
  import opened ApplicationService
  import opened ClientTypes
  import opened ClientDates
  import opened ClientTask
  import opened ApplicantView
  import opened ActiveTasksPage
  import NewTaskForm
  import AppHeader

  // ---------------------------------------------------------------------
  // What the client receives
  // ---------------------------------------------------------------------

  /** The text the server writes for a day: an ISO `YYYY-MM-DD` date naming
      it, from the year 100 on. */
  predicate RendersDay(s: string, d: Day) {
    IsoDate(s) && IsoParts(s).year >= 100 && DateOnly(s) == Some(d)
  }

  /** The client's copy of a stored round. */
  predicate Rendered(r: Round, c: CRound) {
    c.id == r.id && c.isActive == r.isActive && RendersDay(c.deadline, r.deadline)
  }

  /** The client's copies of a task's rounds, in the order served. */
  predicate RenderedRounds(rs: seq<Round>, cs: seq<CRound>) {
    |rs| == |cs| && forall i :: 0 <= i < |rs| ==> Rendered(rs[i], cs[i])
  }

  /** With a single active round, the client's active round is the copy of
      the server's. */
  lemma ActiveRoundIsRendered(rs: seq<Round>, cs: seq<CRound>, k: nat)
    requires RenderedRounds(rs, cs) && ActiveOnlyAt(rs, k)
    ensures ActiveRound(cs) == Some(cs[k])
  {
    assert cs[k].isActive;
    var i :| 0 <= i < |cs| && cs[i] == ActiveRound(cs).value && cs[i].isActive &&
             forall j :: 0 <= j < i ==> !cs[j].isActive;
    assert rs[i].isActive;
  }

  /** The server's current round (the first active one in deadline order)
      is the task's only active round. */
  lemma CurrentIsOnlyActive(rs: seq<Round>, k: nat)
    requires ActiveOnlyAt(rs, k)
    ensures CurrentIndex(rs).Some?
    ensures SortByDeadline(rs)[CurrentIndex(rs).value] == rs[k]
  {
    var s := SortByDeadline(rs);
    ActiveOnlyAtCount(rs, k);
    SortKeepsActiveCount(rs);
    SingleActiveIndex(s);
    var i := CurrentIndex(rs).value;
    SortSameMembers(rs);
    assert s[i] in s;
    var j :| 0 <= j < |rs| && rs[j] == s[i];
    assert rs[j].isActive;
  }

  // ---------------------------------------------------------------------
  // Activating the next round
  // ---------------------------------------------------------------------

  /** The creator is offered "activate next round" exactly when the server's
      deadline gate lets the request through: the button never leads to a
      403, and hiding it never hides a request the server would take. */
  lemma ActivationGateAgrees(rs: seq<Round>, cs: seq<CRound>, k: nat, today: Day, stamp: Option<Instant>)
    requires RenderedRounds(rs, cs) && ActiveOnlyAt(rs, k)
    ensures ActivateOffered(true, false, cs, today) <==> !Advance(rs, today, stamp).IsError(Forbidden)
    ensures ActivateOffered(true, false, cs, today) ==>
      Advance(rs, today, stamp).Ok? || Advance(rs, today, stamp) == Err(Conflict, NoNextRound)
  {
    ActiveRoundIsRendered(rs, cs, k);
    CurrentIsOnlyActive(rs, k);
    IsBeforeTodayIsCalendarOrder(cs[k].deadline, today);
  }

  // ---------------------------------------------------------------------
  // Submitting to a round
  // ---------------------------------------------------------------------

  /** No two rounds of the list share an id. */
  predicate DistinctIds(rs: seq<Round>) {
    forall i, j :: 0 <= i < j < |rs| ==> rs[i].id != rs[j].id
  }

  /** A round's upload form posts to the controller's per-round endpoint,
      which never looks at the round's active flag. Given a file and
      working storage, every round the client renders from the task takes
      the upload: a shown form is accepted, and no upload is refused with
      403, so keeping closed rounds out of reach is the client's doing
      alone. */
  lemma UploadFormIsAccepted(db: Db, env: Env, taskId: TaskId, k: nat, c: CRound, apps: seq<CApp>, viewer: Option<User>,
                             eliminated: bool, et: Option<EvaluationType>, chosen: set<int>, file: Option<Upload>,
                             userId: string, userName: string, appId: AppId)
    requires appId !in db.apps && taskId in db.tasks
    requires DistinctIds(db.tasks[taskId].rounds) && k < |db.tasks[taskId].rounds|
    requires Rendered(db.tasks[taskId].rounds[k], c)
    requires !NoFile(file) && !env.storageFails
    ensures Card(c, apps, viewer, eliminated, et, chosen).upload.Some? ==>
      ControllerHandleFileUploadForRound(db, env, taskId, c.id, file, userId, userName, appId).response.Ok?
    ensures !ControllerHandleFileUploadForRound(db, env, taskId, c.id, file, userId, userName, appId).response.IsError(Forbidden)
    ensures var out := ControllerHandleFileUploadForRound(db, env, taskId, c.id, file, userId, userName, appId).response;
      && out.Ok?
      && out.value.apps[appId].roundId == Some(c.id)
      && out.value.apps[appId].taskId == db.tasks[taskId].rounds[k].taskId
  {
    RenderedRoundIsFound(db, taskId, k, c);
  }

  /** The service's per-round upload, which the client does not call,
      refuses with 403 exactly the rounds the client shows as closed. */
  lemma ServiceUploadRefusesClosed(db: Db, env: Env, taskId: TaskId, k: nat, c: CRound, file: Option<Upload>,
                                   userId: string, userName: string, appId: AppId)
    requires appId !in db.apps && taskId in db.tasks
    requires DistinctIds(db.tasks[taskId].rounds) && k < |db.tasks[taskId].rounds|
    requires Rendered(db.tasks[taskId].rounds[k], c)
    requires !NoFile(file) && !env.storageFails
    ensures HandleFileUploadForRound(db, env, taskId, c.id, file, userId, userName, appId).response.IsError(Forbidden)
        <==> !c.isActive
    ensures HandleFileUploadForRound(db, env, taskId, c.id, file, userId, userName, appId).response.Ok?
        <==> c.isActive
  {
    RenderedRoundIsFound(db, taskId, k, c);
  }

  /** Looking up a rendered round's id finds that round. */
  lemma RenderedRoundIsFound(db: Db, taskId: TaskId, k: nat, c: CRound)
    requires taskId in db.tasks
    requires DistinctIds(db.tasks[taskId].rounds) && k < |db.tasks[taskId].rounds|
    requires Rendered(db.tasks[taskId].rounds[k], c)
    ensures FindRound(db.tasks[taskId].rounds, c.id) == Some(db.tasks[taskId].rounds[k])
  {
    var rs := db.tasks[taskId].rounds;
    var found := FindRound(rs, c.id);
    var j :| 0 <= j < |rs| && rs[j] == found.value && forall i :: 0 <= i < j ==> rs[i].id != c.id;
    assert j == k;
  }

  // ---------------------------------------------------------------------
  // Saving the elimination
  // ---------------------------------------------------------------------

  /** The list the creator's client sends is stored as it is: duplicate
      free, holding everyone eliminated before and everyone selected.
      A client that shows the stored list never un-eliminates anyone. */
  lemma EliminationReachesServer(db: Db, id: TaskId, st: EliminationState)
    requires Consistent(db) && id in db.tasks
    ensures var sent := SaveElimination(st, true).0;
      && EliminateApplicants(db, id, sent).Ok?
      && EliminateApplicants(db, id, sent).value.tasks[id].eliminatedApplicants == sent
    ensures var stored := EliminateApplicants(db, id, SaveElimination(st, true).0).value.tasks[id].eliminatedApplicants;
      && NoDup(stored)
      && (forall u :: u in stored <==> u in st.eliminated || u in st.selected)
    ensures st.eliminated == db.tasks[id].eliminatedApplicants && NoDup(st.eliminated) ==>
      db.tasks[id].eliminatedApplicants <= EliminateApplicants(db, id, SaveElimination(st, true).0).value.tasks[id].eliminatedApplicants
  {
    EliminateKeepsConsistent(db, id, SaveElimination(st, true).0);
  }

  // ---------------------------------------------------------------------
  // Creating a task
  // ---------------------------------------------------------------------

  /** How the server reads a round of a creation body; a deadline that is
      not a date fails the request. */
  function DecodeRound(d: NewTaskForm.RoundDraft): (r: Option<Round>)
    ensures r.Some? <==> IsoDate(d.deadline)
    ensures r.Some? ==> r.value.description == d.description && DateOnly(d.deadline) == Some(r.value.deadline)
  {
    match DateOnly(d.deadline)
    case None => None
    case Some(day) => Some(NewRound(0, 0, d.description, day))
  }

  function DecodeRounds(ds: seq<NewTaskForm.RoundDraft>): (r: Option<seq<Round>>)
    ensures r.Some? <==> forall i :: 0 <= i < |ds| ==> IsoDate(ds[i].deadline)
    ensures r.Some? ==> |r.value| == |ds|
    decreases |ds|
  {
    if |ds| == 0 then Some([])
    else
      match (DecodeRound(ds[0]), DecodeRounds(ds[1..]))
      case (Some(x), Some(xs)) => Some([x] + xs)
      case (_, _) =>
        assert forall i :: 1 <= i < |ds| ==> ds[i] == ds[1..][i - 1];
        None
  }

  /** The task the server builds from a creation body: `None` when some
      date text is not a date. */
  function DecodeCreateBody(b: NewTaskForm.CreateBody, creator: string): (t: Option<Task>)
    ensures t.Some? <==> DecodeRounds(b.rounds).Some? && (b.applicationDeadline.Some? ==> IsoDate(b.applicationDeadline.value))
    ensures t.Some? ==> |t.value.rounds| == |b.rounds|
    ensures t.Some? ==> (t.value.applicationDeadline.Some? <==> b.applicationDeadline.Some?)
  {
    match DecodeRounds(b.rounds)
    case None => None
    case Some(rs) =>
      if b.applicationDeadline.Some? && DateOnly(b.applicationDeadline.value).None? then None
      else
        var deadline := if b.applicationDeadline.Some? then DateOnly(b.applicationDeadline.value) else None;
        Some(Task(0, b.title, b.description, deadline, creator, b.evaluationType, rs, None, []))
  }

  /** Whatever the form sends and the server can read is created: the
      form's check (rounds or a deadline) is exactly the server's
      constraint on the deadline column. */
  lemma SentFormIsCreated(f: NewTaskForm.Form, username: string, db: Db, id: TaskId)
    requires id !in db.tasks
    requires NewTaskForm.Submit(f, Some(username)).Sent?
    requires DecodeCreateBody(NewTaskForm.Submit(f, Some(username)).body, username).Some?
    ensures CreateTask(db, DecodeCreateBody(NewTaskForm.Submit(f, Some(username)).body, username).value, id).Ok?
  {
  }

  /** The one body the form refuses to send for lack of a deadline is one
      the server would refuse with a 500. */
  lemma RefusedFormFailsOnServer(f: NewTaskForm.Form, username: string, db: Db, id: TaskId)
    requires id !in db.tasks
    requires NewTaskForm.Submit(f, Some(username)) == NewTaskForm.Rejected(NewTaskForm.SetApplicationDeadline)
    ensures var body := NewTaskForm.CreateBody(f.title, f.description, None, Some(username), f.rounds, f.evaluationType);
      && DecodeCreateBody(body, username).Some?
      && CreateTask(db, DecodeCreateBody(body, username).value, id) == Err(ServerError, ConstraintViolation)
  {
  }

  // ---------------------------------------------------------------------
  // The public task list
  // ---------------------------------------------------------------------

  /** The client's copy of a stored task: its rounds as served, its
      application deadline as ISO text. */
  predicate RenderedTask(t: Task, c: CTask) {
    && c.rounds.Some?
    && RenderedRounds(t.rounds, c.rounds.value)
    && (t.applicationDeadline.Some? ==> RendersDay(c.applicationDeadline, t.applicationDeadline.value))
    && (t.applicationDeadline.None? ==> c.applicationDeadline == "")
  }

  /** Once a task's round is left, the task drops out of the public list
      for any clock at or after the day the activation ran: the stored
      application deadline is the earliest round deadline, no later than
      the round just left, whose deadline had already passed. */
  lemma ActivatedTaskLeavesList(db: Db, id: TaskId, today: Day, now: Instant,
                                c: CTask, ts: seq<CTask>, clock: int)
    requires Consistent(db)
    requires ActivateNextRound(db, id, today, now).Ok?
    requires RenderedTask(ActivateNextRound(db, id, today, now).value.tasks[id], c)
    requires today * MsPerDay <= clock
    ensures c !in ActiveVisibleTasks(ts, clock)
  {
    var t := db.tasks[id];
    assert TaskConsistent(t, id);
    var after := ActivateNextRound(db, id, today, now).value.tasks[id];
    assert after == t.(rounds := after.rounds);
    var s := SortByDeadline(t.rounds);
    var p := SortOrder(t.rounds);
    var i := CurrentIndex(t.rounds).value;
    SortOrderPicks(t.rounds);
    var m := MinDeadline(t.rounds);
    assert after.applicationDeadline == Some(m);
    assert m <= t.rounds[p[i]].deadline == s[i].deadline < today;
    assert RendersDay(c.applicationDeadline, m);
    DeadlinePassedHides(ts, c, clock);
  }

  /** A task just created with rounds is listed exactly while its first
      deadline is ahead. */
  lemma CreatedTaskListed(db: Db, t: Task, id: TaskId, c: CTask, ts: seq<CTask>, clock: int)
    requires id !in db.tasks && |t.rounds| > 0
    requires CreateTask(db, t, id).Ok? && RenderedTask(CreateTask(db, t, id).value.tasks[id], c) && c in ts
    ensures c in ActiveVisibleTasks(ts, clock) <==> CreateTask(db, t, id).value.tasks[id].rounds[0].deadline * MsPerDay > clock
  {
    var s := CreateTask(db, t, id).value.tasks[id];
    var day := s.rounds[0].deadline;
    assert s.rounds[0].isActive && s.applicationDeadline == Some(day);
    assert Rendered(s.rounds[0], c.rounds.value[0]);
    assert FirstRound(c) == Some(c.rounds.value[0]) && c.rounds.value[0].isActive;
    assert RendersDay(c.applicationDeadline, day);
    assert c.applicationDeadline != "" && DateOnly(c.applicationDeadline) == Some(day);
    assert Visible(c, clock) <==> day * MsPerDay > clock;
  }

  // ---------------------------------------------------------------------
  // Notification entries
  // ---------------------------------------------------------------------

  /** Clicking an elimination entry clears it: once the server handles the
      click's request, the task is no longer among the user's unseen
      eliminations. */
  lemma EliminationClickClears(db: Db, n: AppHeader.Notification, user: string)
    requires n.kind == AppHeader.Elimination && user != ""
    ensures AppHeader.ClickEntry(n, Some(user)).touch == Some(AppHeader.TouchElimination(n.taskId, user))
    ensures n.taskId !in UnseenEliminationCounts(TouchEliminationView(db, n.taskId, user).value, user)
  {
  }

  /** Clicking a round-opening entry clears it, when the click comes no
      earlier than the latest activation: none of the user's applications
      on the task has an entry afterwards. */
  lemma RoundClickClears(db: Db, n: AppHeader.Notification, user: string, now: Instant)
    requires n.kind == AppHeader.RoundActivated && user != "" && n.taskId in db.tasks
    requires forall i :: 0 <= i < |db.tasks[n.taskId].rounds| && db.tasks[n.taskId].rounds[i].activatedAt.Some? ==>
      db.tasks[n.taskId].rounds[i].activatedAt.value <= now
    ensures AppHeader.ClickEntry(n, Some(user)).touch == Some(AppHeader.TouchRoundActivation(n.taskId, user))
    ensures forall a :: a in db.apps && OnTaskOf(db.apps[a], n.taskId, user) ==>
      a !in ListRoundActivationNotifications(TouchRoundActivationView(db, n.taskId, user, now), user)
  {
    TouchRoundActivationViewClears(db, n.taskId, user, now);
  }
}
