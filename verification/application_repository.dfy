/** The application repository: the derived finders, the two notification
    queries an applicant's header polls (new reviews, unseen eliminations),
    and the bulk update that marks an elimination as seen. Each query joins
    an application to its task, so an application whose task is not stored
    never appears in a result. */
module ApplicationRepository {
  import opened Wrappers
  import opened Entities

  // ---------------------------------------------------------------------
  // Finders
  // ---------------------------------------------------------------------

  /** `findByTaskId`. */
  function FindByTaskId(db: Db, t: TaskId): (r: map<AppId, Application>)
    ensures forall a :: a in r <==> a in db.apps && db.apps[a].taskId == t
    ensures forall a :: a in r ==> r[a] == db.apps[a]
  {
    map a | a in db.apps && db.apps[a].taskId == t :: db.apps[a]
  }

  /** `findByKeycloakUserId`. */
  function FindByUserId(db: Db, user: string): (r: map<AppId, Application>)
    ensures forall a :: a in r <==> a in db.apps && db.apps[a].userId == user
    ensures forall a :: a in r ==> r[a] == db.apps[a]
  {
    map a | a in db.apps && db.apps[a].userId == user :: db.apps[a]
  }

  /** `findByTaskIdAndKeycloakUserName`. */
  function FindByTaskAndUserName(db: Db, t: TaskId, name: string): (r: map<AppId, Application>)
    ensures forall a :: a in r <==> a in db.apps && db.apps[a].taskId == t && db.apps[a].userName == name
    ensures forall a :: a in r ==> r[a] == db.apps[a]
  {
    map a | a in db.apps && db.apps[a].taskId == t && db.apps[a].userName == name :: db.apps[a]
  }

  /** Filtering by task and by user name one after the other is the combined finder. */
  lemma FindersCompose(db: Db, t: TaskId, name: string)
    ensures FindByTaskAndUserName(db, t, name) == FindByTaskAndUserName(Db(db.tasks, FindByTaskId(db, t)), t, name)
  {
  }

  // ---------------------------------------------------------------------
  // Notification rows
  // ---------------------------------------------------------------------

  /** One row of a notification query: a task, its title, and how many of
      the user's applications on it match (`ApplicationNotificationDTO`). */
  datatype CountRow = CountRow(taskId: TaskId, taskTitle: string, count: nat)

  /** The applications of the result's task that match, counted once each. */
  function MatchingApps(db: Db, t: TaskId, matches: Application -> bool): set<AppId> {
    set a | a in db.apps && db.apps[a].taskId == t && matches(db.apps[a])
  }

  /** `GROUP BY task HAVING COUNT > 0` over the applications that match:
      one row per stored task that has at least one. */
  function GroupCounts(db: Db, matches: Application -> bool): (r: map<TaskId, CountRow>)
    ensures forall t :: t in r <==> t in db.tasks && exists a :: a in db.apps && db.apps[a].taskId == t && matches(db.apps[a])
    ensures forall t :: t in r ==> r[t].taskId == t && r[t].taskTitle == db.tasks[t].title
    ensures forall t :: t in r ==> r[t].count == |MatchingApps(db, t, matches)| && r[t].count > 0
  {
    var r := map t | t in db.tasks && (exists a :: a in db.apps && db.apps[a].taskId == t && matches(db.apps[a]))
      :: CountRow(t, db.tasks[t].title, |MatchingApps(db, t, matches)|);
    assert forall t :: t in r ==> r[t].count > 0 by {
      forall t | t in r ensures r[t].count > 0 {
        var a :| a in db.apps && db.apps[a].taskId == t && matches(db.apps[a]);
        assert a in MatchingApps(db, t, matches);
      }
    }
    r
  }

  // ---------------------------------------------------------------------
  // New reviews
  // ---------------------------------------------------------------------

  /** An application whose review the applicant has not seen: owned by the
      user, reviewed, and either never viewed or viewed before the review
      was written. A comparison with an absent value is not true, so an
      application viewed once and reviewed without a review time never
      counts again. */
  predicate IsNewReview(a: Application, user: string) {
    && a.userName == user
    && Reviewed(a)
    && (a.lastViewedReviewAt.None? || (a.reviewCreatedAt.Some? && a.lastViewedReviewAt.value < a.reviewCreatedAt.value))
  }

  /** `getTasksWithNewReviewCount`. */
  function NewReviewCounts(db: Db, user: string): (r: map<TaskId, CountRow>)
    ensures forall t :: t in r <==> t in db.tasks && exists a :: a in db.apps && db.apps[a].taskId == t && IsNewReview(db.apps[a], user)
    ensures forall t :: t in r ==> r[t].count > 0 && r[t].taskTitle == db.tasks[t].title
  {
    GroupCounts(db, a => IsNewReview(a, user))
  }

  // ---------------------------------------------------------------------
  // Unseen eliminations
  // ---------------------------------------------------------------------

  /** The user's application on a task that has eliminated them, whose
      elimination they have not marked as seen. */
  predicate IsUnseenElimination(db: Db, a: Application, user: string) {
    && a.userName == user
    && a.taskId in db.tasks
    && user in db.tasks[a.taskId].eliminatedApplicants
    && a.eliminatedSeen != Some(true)
  }

  /** `getTasksWithUnseenElimination`. */
  function UnseenEliminationCounts(db: Db, user: string): (r: map<TaskId, CountRow>)
    ensures forall t :: t in r <==> t in db.tasks && exists a :: a in db.apps && db.apps[a].taskId == t && IsUnseenElimination(db, db.apps[a], user)
    ensures forall t :: t in r ==> r[t].count > 0 && r[t].taskTitle == db.tasks[t].title
  {
    GroupCounts(db, a => IsUnseenElimination(db, a, user))
  }

  /** The applications `markEliminationSeen(user, t)` updates. */
  predicate MarkTarget(db: Db, a: Application, user: string, t: TaskId) {
    a.taskId == t && IsUnseenElimination(db, a, user)
  }

  /** `markEliminationSeen`: set the flag on exactly the user's unseen
      applications on task t, and report how many rows changed. */
  function MarkEliminationSeen(db: Db, user: string, t: TaskId): (r: (Db, nat))
    ensures r.0.tasks == db.tasks && r.0.apps.Keys == db.apps.Keys
    ensures forall a :: a in db.apps ==>
      r.0.apps[a] == (if MarkTarget(db, db.apps[a], user, t) then db.apps[a].(eliminatedSeen := Some(true)) else db.apps[a])
    ensures r.1 == |set a | a in db.apps && MarkTarget(db, db.apps[a], user, t)|
  {
    var changed := set a | a in db.apps && MarkTarget(db, db.apps[a], user, t);
    var apps := map a | a in db.apps :: if a in changed then db.apps[a].(eliminatedSeen := Some(true)) else db.apps[a];
    (db.(apps := apps), |changed|)
  }

  /** Marking twice changes nothing the second time. */
  lemma MarkEliminationSeenTwice(db: Db, user: string, t: TaskId)
    ensures var once := MarkEliminationSeen(db, user, t).0;
      MarkEliminationSeen(once, user, t) == (once, 0)
  {
    var once := MarkEliminationSeen(db, user, t).0;
    assert forall a :: a in once.apps ==> !MarkTarget(once, once.apps[a], user, t);
    var twice := MarkEliminationSeen(once, user, t);
    assert (set a | a in once.apps && MarkTarget(once, once.apps[a], user, t)) == {};
    assert twice.0.apps == once.apps;
  }

  /** After marking, the task no longer appears among the user's unseen
      eliminations, and every other task appears there exactly when it did before. */
  lemma MarkEliminationSeenClears(db: Db, user: string, t: TaskId)
    ensures var after := MarkEliminationSeen(db, user, t).0;
      && t !in UnseenEliminationCounts(after, user)
      && forall k :: k != t ==> (k in UnseenEliminationCounts(after, user) <==> k in UnseenEliminationCounts(db, user))
  {
    var after := MarkEliminationSeen(db, user, t).0;
    MarkClearsTask(db, user, t);
    forall k | k != t ensures k in UnseenEliminationCounts(after, user) <==> k in UnseenEliminationCounts(db, user) {
      MarkKeepsOtherTask(db, user, t, k);
    }
  }

  /** Some application of the user on task k still has an unseen elimination. */
  predicate HasUnseen(db: Db, user: string, k: TaskId) {
    exists a :: a in db.apps && db.apps[a].taskId == k && IsUnseenElimination(db, db.apps[a], user)
  }

  lemma MarkClearsTask(db: Db, user: string, t: TaskId)
    ensures !HasUnseen(MarkEliminationSeen(db, user, t).0, user, t)
  {
  }

  lemma MarkKeepsOtherTask(db: Db, user: string, t: TaskId, k: TaskId)
    requires k != t
    ensures HasUnseen(MarkEliminationSeen(db, user, t).0, user, k) <==> HasUnseen(db, user, k)
  {
    var after := MarkEliminationSeen(db, user, t).0;
    if HasUnseen(db, user, k) {
      var a :| a in db.apps && db.apps[a].taskId == k && IsUnseenElimination(db, db.apps[a], user);
      assert after.apps[a] == db.apps[a];
    }
    if HasUnseen(after, user, k) {
      var a :| a in after.apps && after.apps[a].taskId == k && IsUnseenElimination(after, after.apps[a], user);
      assert after.apps[a] == db.apps[a];
    }
  }

  /** Marking touches nothing but the elimination flag of the user's
      applications on that task: other users and other tasks keep theirs. */
  lemma MarkEliminationSeenScope(db: Db, user: string, t: TaskId, a: AppId)
    requires a in db.apps && (db.apps[a].userName != user || db.apps[a].taskId != t)
    ensures MarkEliminationSeen(db, user, t).0.apps[a] == db.apps[a]
  {
  }
}
