/** The task side of the backend: creating and updating tasks, the creator's
    view watermark, the elimination list, and the round-activation state
    machine. The controller endpoints for create, update, touch-view and
    eliminate do exactly what the service does; the controller's
    activate-next endpoint differs only in not stamping `activatedAt`, so
    both activations share one core with the stamp as a parameter. */
module TaskService {
  import opened Wrappers
  import opened Entities
  import opened RoundOrder
  import Seqs

  // ---------------------------------------------------------------------
  // The database invariant
  // ---------------------------------------------------------------------

  /** Every stored task sits under its own id, satisfies the columns'
      constraints, and owns its rounds. */
  predicate Consistent(db: Db) {
    forall id :: id in db.tasks ==> TaskConsistent(db.tasks[id], id)
  }

  predicate TaskConsistent(t: Task, id: TaskId) {
    t.id == id && Persisted(t) && forall j :: 0 <= j < |t.rounds| ==> t.rounds[j].taskId == id
  }

  // ---------------------------------------------------------------------
  // createTask
  // ---------------------------------------------------------------------

  /** The rounds a created task stores: sorted by deadline, attached to the
      task, and only the first one active. */
  function Arrange(rs: seq<Round>, id: TaskId): (out: seq<Round>)
    ensures |out| == |rs|
    ensures forall j :: 0 <= j < |rs| ==> out[j] == rs[j].(taskId := id, isActive := j == 0)
  {
    seq(|rs|, j requires 0 <= j < |rs| => rs[j].(taskId := id, isActive := j == 0))
  }

  lemma ArrangeKeepsContents(rs: seq<Round>, id: TaskId)
    ensures Contents(Arrange(rs, id)) == Contents(rs)
  {
  }

  /** `createTask`: the database generates a fresh id; a task with rounds
      has them sorted by deadline, re-parented and with only the first
      active, then the task is saved (which synchronises its deadline). */
  function CreateTask(db: Db, t: Task, id: TaskId): (r: Response<Db>)
    requires id !in db.tasks
    ensures r.Ok? <==> |t.rounds| > 0 || t.applicationDeadline.Some?
    ensures r.Err? ==> r == Err(ServerError, ConstraintViolation)
    ensures r.Ok? ==> id in r.value.tasks && r.value.apps == db.apps
    ensures r.Ok? ==> forall k :: k in db.tasks ==> k in r.value.tasks && r.value.tasks[k] == db.tasks[k]
    ensures r.Ok? ==> forall k :: k in r.value.tasks ==> k == id || k in db.tasks
    ensures r.Ok? ==> TaskConsistent(r.value.tasks[id], id)
    ensures r.Ok? && |t.rounds| == 0 ==> r.value.tasks[id] == t.(id := id)
    ensures r.Ok? ==> |r.value.tasks[id].rounds| == |t.rounds|
    ensures r.Ok? && |t.rounds| > 0 ==>
      var s := r.value.tasks[id];
      && s == t.(id := id, rounds := s.rounds, applicationDeadline := s.applicationDeadline)
      && SortedByDeadline(s.rounds)
      && multiset(Contents(s.rounds)) == multiset(Contents(t.rounds))
      && ActiveOnlyAt(s.rounds, 0)
      && s.applicationDeadline == Some(s.rounds[0].deadline)
  {
    var rounds := if |t.rounds| > 0 then Arrange(SortByDeadline(t.rounds), id) else t.rounds;
    var task := t.(id := id, rounds := rounds);
    ArrangeSorted(t.rounds, id);
    match Save(task)
    case Err(s, why) => Err(s, why)
    case Ok(saved) => Ok(db.(tasks := db.tasks[id := saved]))
  }

  /** What creation makes of a non-empty round list: sorted, a permutation
      of the rounds sent, attached to the task, only the first active, and
      the first deadline the earliest. */
  lemma ArrangeSorted(rounds: seq<Round>, id: TaskId)
    ensures |rounds| > 0 ==>
      var out := Arrange(SortByDeadline(rounds), id);
      && |out| == |rounds|
      && SortedByDeadline(out)
      && multiset(Contents(out)) == multiset(Contents(rounds))
      && ActiveOnlyAt(out, 0)
      && MinDeadline(out) == out[0].deadline
      && forall j :: 0 <= j < |out| ==> out[j].taskId == id
  {
    if |rounds| > 0 {
      var s := SortByDeadline(rounds);
      ArrangeOrder(s, id);
      SortPermutesContents(rounds);
      ArrangeKeepsContents(s, id);
    }
  }

  lemma ArrangeOrder(s: seq<Round>, id: TaskId)
    requires |s| > 0 && SortedByDeadline(s)
    ensures var out := Arrange(s, id);
      && SortedByDeadline(out)
      && ActiveOnlyAt(out, 0)
      && MinDeadline(out) == out[0].deadline
  {
    var out := Arrange(s, id);
    assert forall j :: 0 <= j < |out| ==> out[j].deadline == s[j].deadline;
    var m := MinDeadline(out);
    var i :| 0 <= i < |out| && out[i].deadline == m;
    assert out[0].deadline <= out[i].deadline;
  }

  /** Creating a task keeps the database consistent. */
  lemma CreateTaskKeepsConsistent(db: Db, t: Task, id: TaskId)
    requires Consistent(db) && id !in db.tasks
    ensures CreateTask(db, t, id).Ok? ==> Consistent(CreateTask(db, t, id).value)
  {
  }

  // ---------------------------------------------------------------------
  // updateTask
  // ---------------------------------------------------------------------

  /** The fields of an update request the service reads. `rounds` is
      absent when the request carries no round list. */
  datatype TaskPatch = TaskPatch(
    title: string,
    description: string,
    applicationDeadline: Option<Day>,
    rounds: Option<seq<Round>>)

  /** Writing one round: it replaces the stored round with its id, or is
      added when no round has that id. */
  function Upsert(rs: seq<Round>, r: Round): (out: seq<Round>)
    ensures r in out
    ensures forall x :: x in rs && x.id != r.id ==> x in out
    ensures forall x :: x in out ==> x == r || (x in rs && x.id != r.id)
  {
    if exists j :: 0 <= j < |rs| && rs[j].id == r.id then
      var out := seq(|rs|, j requires 0 <= j < |rs| => if rs[j].id == r.id then r else rs[j]);
      var w :| 0 <= w < |rs| && rs[w].id == r.id;
      assert out[w] == r;
      assert forall x :: x in rs && x.id != r.id ==> x in out by {
        forall x | x in rs && x.id != r.id ensures x in out {
          var j :| 0 <= j < |rs| && rs[j] == x;
          assert out[j] == x;
        }
      }
      out
    else
      rs + [r]
  }

  /** `roundRepository.saveAll`: the supplied rounds, re-parented to the
      task, are written one after the other. */
  function UpsertAll(rs: seq<Round>, ps: seq<Round>, id: TaskId): seq<Round>
    decreases |ps|
  {
    if |ps| == 0 then rs
    else Upsert(UpsertAll(rs, ps[..|ps| - 1], id), ps[|ps| - 1].(taskId := id))
  }

  /** A supplied round that no later supplied round overrides. */
  predicate LastWithId(ps: seq<Round>, k: int) {
    0 <= k < |ps| && forall l :: k < l < |ps| ==> ps[l].id != ps[k].id
  }

  /** What writing the supplied rounds leaves: each supplied round that is
      the last with its id is stored (re-parented), each stored round whose
      id was not supplied stays, and nothing else is there. */
  lemma {:induction false} UpsertAllContents(rs: seq<Round>, ps: seq<Round>, id: TaskId)
    ensures forall k :: LastWithId(ps, k) ==> ps[k].(taskId := id) in UpsertAll(rs, ps, id)
    ensures forall x :: x in rs && (forall k :: 0 <= k < |ps| ==> ps[k].id != x.id) ==> x in UpsertAll(rs, ps, id)
    ensures forall x :: x in UpsertAll(rs, ps, id) ==> x in rs || exists k :: 0 <= k < |ps| && x == ps[k].(taskId := id)
    decreases |ps|
  {
    if |ps| > 0 {
      var front := ps[..|ps| - 1];
      var last := ps[|ps| - 1].(taskId := id);
      UpsertAllContents(rs, front, id);
      var inner := UpsertAll(rs, front, id);
      forall k | LastWithId(ps, k) ensures ps[k].(taskId := id) in UpsertAll(rs, ps, id) {
        if k < |ps| - 1 {
          assert LastWithId(front, k);
          assert ps[k] == front[k];
        }
      }
      forall x | x in UpsertAll(rs, ps, id) ensures x in rs || exists k :: 0 <= k < |ps| && x == ps[k].(taskId := id) {
        if x != last {
          assert x in inner;
          if !(x in rs) {
            var k :| 0 <= k < |front| && x == front[k].(taskId := id);
            assert x == ps[k].(taskId := id);
          }
        }
      }
      forall x | x in rs && (forall k :: 0 <= k < |ps| ==> ps[k].id != x.id) ensures x in UpsertAll(rs, ps, id) {
        assert forall k :: 0 <= k < |front| ==> front[k] == ps[k];
        assert ps[|ps| - 1].id != x.id;
      }
    }
  }

  /** The ids of the supplied rounds. */
  function SuppliedIds(ps: seq<Round>): set<RoundId> {
    set k | 0 <= k < |ps| :: ps[k].id
  }

  /** A task's rounds once the rounds with the given ids have been written
      under another task: those rows no longer belong to it. */
  function Detach(rs: seq<Round>, ids: set<RoundId>): (out: seq<Round>)
    ensures forall x :: x in out <==> x in rs && x.id !in ids
  {
    Seqs.Filter(rs, (x: Round) => x.id !in ids)
  }

  /** Every task other than `id` loses the rounds with the given ids; its
      application deadline is not recomputed, since it is not saved. */
  function DetachElsewhere(tasks: map<TaskId, Task>, id: TaskId, ids: set<RoundId>): (out: map<TaskId, Task>)
    ensures out.Keys == tasks.Keys
    ensures forall k :: k in tasks && k != id ==> out[k] == tasks[k].(rounds := Detach(tasks[k].rounds, ids))
  {
    map k | k in tasks :: if k == id then tasks[k] else tasks[k].(rounds := Detach(tasks[k].rounds, ids))
  }

  /** Writing the supplied rounds leaves the task without rounds exactly
      when it had none and none were supplied. */
  lemma UpsertAllEmpty(rs: seq<Round>, ps: seq<Round>, id: TaskId)
    ensures |UpsertAll(rs, ps, id)| == 0 <==> |rs| == 0 && |ps| == 0
  {
    UpsertAllContents(rs, ps, id);
    if |ps| > 0 {
      assert LastWithId(ps, |ps| - 1);
    } else if |rs| > 0 {
      assert rs[0] in rs;
    }
  }

  /** The task's rounds after the supplied ones, if any, are written. */
  function PatchedRounds(rs: seq<Round>, supplied: Option<seq<Round>>, id: TaskId): (out: seq<Round>)
    ensures supplied.None? ==> out == rs
    ensures |out| == 0 <==> |rs| == 0 && (supplied.None? || |supplied.value| == 0)
    ensures supplied.Some? ==>
      var ps := supplied.value;
      && (forall k :: LastWithId(ps, k) ==> ps[k].(taskId := id) in out)
      && (forall x :: x in rs && (forall k :: 0 <= k < |ps| ==> ps[k].id != x.id) ==> x in out)
      && (forall x :: x in out ==> x in rs || exists k :: 0 <= k < |ps| && x == ps[k].(taskId := id))
  {
    match supplied
    case None => rs
    case Some(ps) =>
      UpsertAllContents(rs, ps, id);
      UpsertAllEmpty(rs, ps, id);
      UpsertAll(rs, ps, id)
  }

  /** `updateTask`: overwrite title, description and application deadline,
      write the supplied rounds, then save the task (which synchronises its
      deadline from the rounds it now has). Writing a supplied round sets
      its task to this one, so a supplied id that another task holds moves
      that round here; the other task is not saved again. The only
      failure after the lookup is the 500 of a task left with neither
      rounds nor a deadline. */
  function UpdateTask(db: Db, id: TaskId, patch: TaskPatch): (r: Response<Db>)
    ensures id !in db.tasks ==> r == Err(NotFound, MissingEntity)
    ensures r.Err? ==> r.status == NotFound || r == Err(ServerError, ConstraintViolation)
    ensures id in db.tasks ==>
      (r.Err? <==> patch.applicationDeadline.None? && |db.tasks[id].rounds| == 0
                   && (patch.rounds.None? || |patch.rounds.value| == 0))
    ensures r.Ok? ==> id in db.tasks && id in r.value.tasks && r.value.apps == db.apps
    ensures r.Ok? ==> forall k :: k in db.tasks <==> k in r.value.tasks
    ensures r.Ok? && patch.rounds.None? ==> forall k :: k in db.tasks && k != id ==> r.value.tasks[k] == db.tasks[k]
    ensures r.Ok? && patch.rounds.Some? ==> forall k :: k in db.tasks && k != id ==>
      r.value.tasks[k] == db.tasks[k].(rounds := Detach(db.tasks[k].rounds, SuppliedIds(patch.rounds.value)))
    ensures r.Ok? ==>
      var prev := db.tasks[id];
      var s := r.value.tasks[id];
      && Persisted(s)
      && s.title == patch.title && s.description == patch.description
      && s.id == prev.id && s.creator == prev.creator && s.evaluationType == prev.evaluationType
      && s.eliminatedApplicants == prev.eliminatedApplicants && s.creatorLastViewedAt == prev.creatorLastViewedAt
      && (|s.rounds| == 0 ==> s.applicationDeadline == patch.applicationDeadline)
    ensures r.Ok? && patch.rounds.None? ==> r.value.tasks[id].rounds == db.tasks[id].rounds
    ensures r.Ok? && patch.rounds.Some? ==>
      var ps := patch.rounds.value;
      var rs := r.value.tasks[id].rounds;
      && (forall k :: LastWithId(ps, k) ==> ps[k].(taskId := id) in rs)
      && (forall x :: x in db.tasks[id].rounds && (forall k :: 0 <= k < |ps| ==> ps[k].id != x.id) ==> x in rs)
      && (forall x :: x in rs ==> x in db.tasks[id].rounds || exists k :: 0 <= k < |ps| && x == ps[k].(taskId := id))
  {
    if id !in db.tasks then Err(NotFound, MissingEntity)
    else
      var t := db.tasks[id];
      var rounds := PatchedRounds(t.rounds, patch.rounds, id);
      var others := match patch.rounds
        case None => db.tasks
        case Some(ps) => DetachElsewhere(db.tasks, id, SuppliedIds(ps));
      var edited := t.(title := patch.title, description := patch.description,
                       applicationDeadline := patch.applicationDeadline, rounds := rounds);
      match Save(edited)
      case Err(s, why) => Err(s, why)
      case Ok(saved) => Ok(db.(tasks := others[id := saved]))
  }

  /** A supplied round whose id another task holds ends up under the
      edited task only: the other task keeps every round except the
      supplied ids, and no row with a supplied id remains there. */
  lemma UpdateTaskMovesRounds(db: Db, id: TaskId, patch: TaskPatch, other: TaskId)
    requires UpdateTask(db, id, patch).Ok? && patch.rounds.Some?
    requires other in db.tasks && other != id
    ensures var ps := patch.rounds.value;
      var rs := UpdateTask(db, id, patch).value.tasks[other].rounds;
      && (forall x :: x in rs <==> x in db.tasks[other].rounds && forall k :: 0 <= k < |ps| ==> ps[k].id != x.id)
      && (forall k :: LastWithId(ps, k) ==> ps[k].(taskId := id) in UpdateTask(db, id, patch).value.tasks[id].rounds)
  {
    var ps := patch.rounds.value;
    var rs := UpdateTask(db, id, patch).value.tasks[other].rounds;
    forall x ensures x in rs <==> x in db.tasks[other].rounds && forall k :: 0 <= k < |ps| ==> ps[k].id != x.id {
      if x.id in SuppliedIds(ps) {
        var k :| 0 <= k < |ps| && ps[k].id == x.id;
      }
    }
  }

  /** A task that loses a round keeps its stored application deadline,
      which is still no later than any round it has left, though it may be
      earlier than all of them. */
  lemma UpdateTaskLeavesDeadline(db: Db, id: TaskId, patch: TaskPatch, other: TaskId)
    requires Consistent(db) && UpdateTask(db, id, patch).Ok?
    requires other in db.tasks && other != id
    ensures var before := db.tasks[other];
      var after := UpdateTask(db, id, patch).value.tasks[other];
      && after.applicationDeadline == before.applicationDeadline
      && after.applicationDeadline.Some?
      && forall j :: 0 <= j < |after.rounds| ==> after.applicationDeadline.value <= after.rounds[j].deadline
  {
    var before := db.tasks[other];
    assert TaskConsistent(before, other);
    var after := UpdateTask(db, id, patch).value.tasks[other];
    forall j | 0 <= j < |after.rounds| ensures after.applicationDeadline.value <= after.rounds[j].deadline {
      assert after.rounds[j] in after.rounds;
      assert after.rounds[j] in before.rounds;
    }
  }

  /** Updating a task leaves it consistent, its rounds all belonging to it;
      the rest of the database stays consistent when no supplied round
      belonged to another task. */
  lemma UpdateTaskKeepsConsistent(db: Db, id: TaskId, patch: TaskPatch)
    requires Consistent(db)
    ensures UpdateTask(db, id, patch).Ok? ==> TaskConsistent(UpdateTask(db, id, patch).value.tasks[id], id)
    ensures UpdateTask(db, id, patch).Ok? && Owned(db, id, patch) ==> Consistent(UpdateTask(db, id, patch).value)
  {
    var r := UpdateTask(db, id, patch);
    if r.Ok? {
      var rs := r.value.tasks[id].rounds;
      forall j | 0 <= j < |rs| ensures rs[j].taskId == id {
        assert rs[j] in rs;
      }
      if Owned(db, id, patch) && patch.rounds.Some? {
        var ids := SuppliedIds(patch.rounds.value);
        forall k | k in db.tasks && k != id ensures r.value.tasks[k] == db.tasks[k] {
          DetachNothing(db.tasks[k].rounds, ids);
        }
      }
    }
  }

  /** No supplied round has the id of a round stored under another task. */
  predicate Owned(db: Db, id: TaskId, patch: TaskPatch) {
    patch.rounds.Some? ==>
      forall k, x :: k in db.tasks && k != id && x in db.tasks[k].rounds ==> x.id !in SuppliedIds(patch.rounds.value)
  }

  /** Detaching ids no round has changes nothing. */
  lemma DetachNothing(rs: seq<Round>, ids: set<RoundId>)
    requires forall x :: x in rs ==> x.id !in ids
    ensures Detach(rs, ids) == rs
  {
    forall i | 0 <= i < |rs| ensures rs[i].id !in ids {
      assert rs[i] in rs;
    }
    Seqs.FilterAll(rs, (x: Round) => x.id !in ids);
  }

  // ---------------------------------------------------------------------
  // touchView and eliminateApplicants
  // ---------------------------------------------------------------------

  /** A stored task can be saved again: it has rounds or a deadline. */
  predicate Savable(t: Task) {
    |t.rounds| > 0 || t.applicationDeadline.Some?
  }

  /** `touchView`: record that the creator has looked at the task now. The
      task is saved, so its deadline is synchronised from its rounds on the
      way; the save fails with 500 only for a task with neither rounds nor a
      deadline. */
  function TouchView(db: Db, id: TaskId, now: Instant): (r: Response<Db>)
    ensures id !in db.tasks <==> r == Err(NotFound, MissingEntity)
    ensures id in db.tasks ==> (r.Err? <==> !Savable(db.tasks[id]))
    ensures r.Err? ==> r.status == NotFound || r == Err(ServerError, ConstraintViolation)
    ensures r.Ok? ==> id in db.tasks && r.value.apps == db.apps
    ensures r.Ok? ==> r.value.tasks == db.tasks[id := SyncDeadline(db.tasks[id].(creatorLastViewedAt := Some(now)))]
    ensures r.Ok? ==> Persisted(r.value.tasks[id])
  {
    if id !in db.tasks then Err(NotFound, MissingEntity)
    else
      var t := db.tasks[id];
      match Save(t.(creatorLastViewedAt := Some(now)))
      case Err(s, why) => Err(s, why)
      case Ok(saved) => Ok(db.(tasks := db.tasks[id := saved]))
  }

  /** In a consistent database touching changes only the view time, and
      the database stays consistent. */
  lemma TouchViewKeepsConsistent(db: Db, id: TaskId, now: Instant)
    requires Consistent(db) && id in db.tasks
    ensures TouchView(db, id, now).Ok?
    ensures TouchView(db, id, now).value == db.(tasks := db.tasks[id := db.tasks[id].(creatorLastViewedAt := Some(now))])
    ensures Consistent(TouchView(db, id, now).value)
  {
    assert TaskConsistent(db.tasks[id], id);
  }

  /** Touching a task whose stored deadline went stale (its rounds changed
      without it being saved) brings the deadline back in line with the
      rounds. */
  lemma TouchViewResyncs(db: Db, id: TaskId, now: Instant)
    requires id in db.tasks && db.tasks[id].id == id && |db.tasks[id].rounds| > 0
    requires forall j :: 0 <= j < |db.tasks[id].rounds| ==> db.tasks[id].rounds[j].taskId == id
    ensures TouchView(db, id, now).Ok?
    ensures TaskConsistent(TouchView(db, id, now).value.tasks[id], id)
    ensures TouchView(db, id, now).value.tasks[id].applicationDeadline == Some(MinDeadline(db.tasks[id].rounds))
  {
  }

  /** Touching twice at the same instant is the same as touching once. */
  lemma TouchViewIdempotent(db: Db, id: TaskId, now: Instant)
    requires TouchView(db, id, now).Ok?
    ensures TouchView(TouchView(db, id, now).value, id, now) == TouchView(db, id, now)
  {
    var db1 := TouchView(db, id, now).value;
    var t1 := db1.tasks[id];
    assert t1.(creatorLastViewedAt := Some(now)) == t1;
    SavePersistedIsIdentity(t1);
    assert db1.tasks[id := t1] == db1.tasks;
  }

  /** `eliminateApplicants`: the task's list becomes exactly the list sent,
      with no union and no de-duplication. The task is saved, with the same
      synchronisation and the same 500 as `touchView`. */
  function EliminateApplicants(db: Db, id: TaskId, names: seq<string>): (r: Response<Db>)
    ensures id !in db.tasks <==> r == Err(NotFound, MissingEntity)
    ensures id in db.tasks ==> (r.Err? <==> !Savable(db.tasks[id]))
    ensures r.Err? ==> r.status == NotFound || r == Err(ServerError, ConstraintViolation)
    ensures r.Ok? ==> id in db.tasks && r.value.apps == db.apps
    ensures r.Ok? ==> r.value.tasks == db.tasks[id := SyncDeadline(db.tasks[id].(eliminatedApplicants := names))]
    ensures r.Ok? ==> Persisted(r.value.tasks[id]) && r.value.tasks[id].eliminatedApplicants == names
  {
    if id !in db.tasks then Err(NotFound, MissingEntity)
    else
      var t := db.tasks[id];
      match Save(t.(eliminatedApplicants := names))
      case Err(s, why) => Err(s, why)
      case Ok(saved) => Ok(db.(tasks := db.tasks[id := saved]))
  }

  /** In a consistent database eliminating changes only the task's list,
      and the database stays consistent. */
  lemma EliminateKeepsConsistent(db: Db, id: TaskId, names: seq<string>)
    requires Consistent(db) && id in db.tasks
    ensures EliminateApplicants(db, id, names).Ok?
    ensures EliminateApplicants(db, id, names).value == db.(tasks := db.tasks[id := db.tasks[id].(eliminatedApplicants := names)])
    ensures Consistent(EliminateApplicants(db, id, names).value)
  {
    assert TaskConsistent(db.tasks[id], id);
  }

  /** The server does not keep eliminations monotone: sending a shorter
      list un-eliminates everyone left out of it. */
  lemma EliminationNotMonotone(db: Db, id: TaskId)
    requires id in db.tasks && Savable(db.tasks[id]) && |db.tasks[id].eliminatedApplicants| > 0
    ensures EliminateApplicants(db, id, []).Ok?
    ensures EliminateApplicants(db, id, []).value.tasks[id].eliminatedApplicants == []
  {
  }

  /** Sending the same list twice is the same as sending it once. */
  lemma EliminateIdempotent(db: Db, id: TaskId, names: seq<string>)
    requires EliminateApplicants(db, id, names).Ok?
    ensures EliminateApplicants(EliminateApplicants(db, id, names).value, id, names) == EliminateApplicants(db, id, names)
  {
    var db1 := EliminateApplicants(db, id, names).value;
    var t1 := db1.tasks[id];
    assert t1.(eliminatedApplicants := names) == t1;
    SavePersistedIsIdentity(t1);
    assert db1.tasks[id := t1] == db1.tasks;
  }

  // ---------------------------------------------------------------------
  // activateNextRound
  // ---------------------------------------------------------------------

  /** The round being left: inactive, and stamped when the endpoint stamps. */
  function Leave(r: Round, stamp: Option<Instant>): (out: Round)
    ensures !out.isActive && Content(out).id == r.id && out.deadline == r.deadline
    ensures out.activatedAt == (if stamp.Some? then stamp else r.activatedAt)
    ensures out == r.(isActive := false, activatedAt := out.activatedAt)
  {
    r.(isActive := false, activatedAt := if stamp.Some? then stamp else r.activatedAt)
  }

  /** The position, in deadline order, of the round the activation starts from. */
  function CurrentIndex(rounds: seq<Round>): Option<nat> {
    FirstActive(SortByDeadline(rounds))
  }

  /** Sorting neither adds nor loses rounds, so "some round is active" does not depend on the order. */
  lemma SortSameMembers(rs: seq<Round>)
    ensures forall x :: x in SortByDeadline(rs) <==> x in rs
  {
    var s := SortByDeadline(rs);
    forall x ensures x in s <==> x in rs {
      assert x in s <==> x in multiset(s);
      assert x in rs <==> x in multiset(rs);
    }
  }

  /** `out` holds the same rows as `rounds`, in the same stored order: only
      the flag and the activation time of a round may differ. */
  predicate SameRows(rounds: seq<Round>, out: seq<Round>) {
    |out| == |rounds| &&
    forall j :: 0 <= j < |out| ==> out[j] == rounds[j].(isActive := out[j].isActive, activatedAt := out[j].activatedAt)
  }

  /** The state change of `activateNextRound` on the rounds of one task.
      The checks run in order and the first failure wins: no rounds (400),
      no active round (400), the first active round in deadline order is
      not yet past its deadline (403), it is the last round (409). The
      backend sorts a local list of the stored rounds; on success it flips
      two of them and saves those two, so the result keeps the stored
      order: the current round (position `p[i]` of the stored list) is
      left and the next in deadline order (position `p[i + 1]`) becomes
      active. */
  function Advance(rounds: seq<Round>, today: Day, stamp: Option<Instant>): (r: Response<seq<Round>>)
    ensures |rounds| == 0 <==> r == Err(BadRequest, NoRounds)
    ensures (|rounds| > 0 && forall j :: 0 <= j < |rounds| ==> !rounds[j].isActive) <==> r == Err(BadRequest, NoActiveRound)
    ensures r.IsError(Forbidden) <==> r == Err(Forbidden, DeadlineNotReached)
    ensures r.IsError(Conflict) <==> r == Err(Conflict, NoNextRound)
    ensures r.Err? ==> r.status in {BadRequest, Forbidden, Conflict}
    ensures CurrentIndex(rounds).Some? ==>
      var i := CurrentIndex(rounds).value;
      var s := SortByDeadline(rounds);
      && (r.IsError(Forbidden) <==> today <= s[i].deadline)
      && (r.IsError(Conflict) <==> s[i].deadline < today && i == |s| - 1)
    ensures r.Ok? ==> CurrentIndex(rounds).Some?
    ensures r.Ok? ==>
      var s := SortByDeadline(rounds);
      var i := CurrentIndex(rounds).value;
      && i + 1 < |s| && s[i].deadline < today
      && r.value == StepAt(rounds, i, stamp)
  {
    if |rounds| == 0 then Err(BadRequest, NoRounds)
    else
      var s := SortByDeadline(rounds);
      SortSameMembers(rounds);
      match FirstActive(s)
      case None =>
        assert forall j :: 0 <= j < |rounds| ==> !rounds[j].isActive by {
          forall j | 0 <= j < |rounds| ensures !rounds[j].isActive {
            assert rounds[j] in s;
          }
        }
        Err(BadRequest, NoActiveRound)
      case Some(i) =>
        assert s[i] in rounds;
        if today <= s[i].deadline then Err(Forbidden, DeadlineNotReached)
        else if i == |s| - 1 then Err(Conflict, NoNextRound)
        else Ok(StepAt(rounds, i, stamp))
  }

  /** The success step of `activateNextRound` from the `i`-th round in
      deadline order: that round is left and the next one activated, each
      at its own position `p[i]`, `p[i + 1]` of the stored list; every
      other round, and the order, stay as they are. */
  function StepAt(rounds: seq<Round>, i: nat, stamp: Option<Instant>): (out: seq<Round>)
    requires i + 1 < |rounds|
    ensures SameRows(rounds, out)
    ensures var s := SortByDeadline(rounds);
      var p := SortOrder(rounds);
      && p[i] < |rounds| && p[i + 1] < |rounds| && p[i] != p[i + 1]
      && rounds[p[i]] == s[i] && rounds[p[i + 1]] == s[i + 1]
      && out[p[i]] == Leave(rounds[p[i]], stamp)
      && out[p[i + 1]] == rounds[p[i + 1]].(isActive := true)
      && forall j :: 0 <= j < |rounds| && j != p[i] && j != p[i + 1] ==> out[j] == rounds[j]
  {
    var p := SortOrder(rounds);
    SortOrderPicks(rounds);
    var a, b := p[i], p[i + 1];
    assert a != b;
    var left, next := Leave(rounds[a], stamp), rounds[b].(isActive := true);
    UpdateTwoRows(rounds, a, b, left, next);
    rounds[a := left][b := next]
  }

  /** Replacing two distinct rows by versions that differ only in the
      active flag and the stamp keeps every other row. */
  lemma UpdateTwoRows(rs: seq<Round>, a: nat, b: nat, x: Round, y: Round)
    requires a < |rs| && b < |rs| && a != b
    requires x == rs[a].(isActive := x.isActive, activatedAt := x.activatedAt)
    requires y == rs[b].(isActive := y.isActive, activatedAt := y.activatedAt)
    ensures var out := rs[a := x][b := y];
      && SameRows(rs, out) && out[a] == x && out[b] == y
      && forall j :: 0 <= j < |rs| && j != a && j != b ==> out[j] == rs[j]
  {
  }

  /** `activateNextRound` on the database: 404 for a missing task,
      otherwise the outcome of `Advance` on the task's rounds. A refusal
      saves nothing; a success changes that task's rounds and nothing else,
      and the rows keep their stored order. */
  function Activate(db: Db, id: TaskId, today: Day, stamp: Option<Instant>): (r: Response<Db>)
    ensures id !in db.tasks <==> r == Err(NotFound, MissingEntity)
    ensures id in db.tasks && Advance(db.tasks[id].rounds, today, stamp).Err? ==>
      r.Err? && r.status == Advance(db.tasks[id].rounds, today, stamp).status
    ensures r.Ok? ==> id in db.tasks && Advance(db.tasks[id].rounds, today, stamp).Ok?
    ensures r.Ok? ==> r.value == db.(tasks := db.tasks[id := db.tasks[id].(rounds := Advance(db.tasks[id].rounds, today, stamp).value)])
    ensures r.Ok? ==> SameRows(db.tasks[id].rounds, r.value.tasks[id].rounds)
  {
    if id !in db.tasks then Err(NotFound, MissingEntity)
    else
      var t := db.tasks[id];
      match Advance(t.rounds, today, stamp)
      case Err(s, why) => Err(s, why)
      case Ok(rs) => Ok(db.(tasks := db.tasks[id := t.(rounds := rs)]))
  }

  /** The service's `activateNextRound`: the current round (the first
      active one in deadline order) is left and stamped with now, and the
      next one in deadline order becomes active, each at its own stored
      position; no other round changes. */
  function ActivateNextRound(db: Db, id: TaskId, today: Day, now: Instant): (r: Response<Db>)
    ensures id !in db.tasks <==> r == Err(NotFound, MissingEntity)
    ensures r.Ok? ==> id in db.tasks && id in r.value.tasks && CurrentIndex(db.tasks[id].rounds).Some?
    ensures r.Ok? ==> SameRows(db.tasks[id].rounds, r.value.tasks[id].rounds)
    ensures r.Ok? ==>
      var before := db.tasks[id].rounds;
      var s := SortByDeadline(before);
      var p := SortOrder(before);
      var i := CurrentIndex(before).value;
      var rs := r.value.tasks[id].rounds;
      && i + 1 < |s| && p[i] < |rs| && p[i + 1] < |rs|
      && rs[p[i]].id == s[i].id && !rs[p[i]].isActive && rs[p[i]].activatedAt == Some(now)
      && rs[p[i + 1]].id == s[i + 1].id && rs[p[i + 1]].isActive
      && forall j :: 0 <= j < |rs| && j != p[i] && j != p[i + 1] ==> rs[j] == before[j]
  {
    Activate(db, id, today, Some(now))
  }

  /** The controller's `activateNextRound`: the same checks and the same
      flag change, but no round's `activatedAt` changes. */
  function ControllerActivateNextRound(db: Db, id: TaskId, today: Day): (r: Response<Db>)
    ensures id !in db.tasks <==> r == Err(NotFound, MissingEntity)
    ensures r.Ok? ==> id in db.tasks && id in r.value.tasks
    ensures r.Ok? ==> SameRows(db.tasks[id].rounds, r.value.tasks[id].rounds)
    ensures r.Ok? ==>
      var before := db.tasks[id].rounds;
      var rs := r.value.tasks[id].rounds;
      forall j :: 0 <= j < |rs| ==> rs[j].activatedAt == before[j].activatedAt
  {
    Activate(db, id, today, None)
  }

  /** A task whose only remaining round is active but not yet due is
      refused with 403, not 409: the deadline gate comes first. */
  lemma LastRoundNotDueIsForbidden(rounds: seq<Round>, today: Day, stamp: Option<Instant>)
    requires |rounds| == 1 && rounds[0].isActive && today <= rounds[0].deadline
    ensures Advance(rounds, today, stamp) == Err(Forbidden, DeadlineNotReached)
  {
    SortSortedIsIdentity(rounds);
  }

  /** With exactly one active round, a successful activation moves the flag
      to the next round in deadline order and leaves exactly one active. */
  lemma AdvanceKeepsSingleActive(rounds: seq<Round>, today: Day, stamp: Option<Instant>)
    requires ActiveCount(rounds) == 1
    requires Advance(rounds, today, stamp).Ok?
    ensures ActiveOnlyAt(Advance(rounds, today, stamp).value, SortOrder(rounds)[CurrentIndex(rounds).value + 1])
    ensures ActiveCount(Advance(rounds, today, stamp).value) == 1
  {
    var out := Advance(rounds, today, stamp).value;
    var p := SortOrder(rounds);
    var i := CurrentIndex(rounds).value;
    SingleActiveIndex(rounds);
    var f := FirstActive(rounds).value;
    assert rounds[p[i]].isActive;
    assert f == p[i];
    assert ActiveOnlyAt(out, p[i + 1]);
    ActiveOnlyAtCount(out, p[i + 1]);
  }

  /** `out` is `before` with round k left and round k + 1 made active. */
  predicate SteppedAt(before: seq<Round>, k: nat, stamp: Option<Instant>, out: seq<Round>) {
    && |out| == |before| && k + 1 < |before|
    && out[k] == Leave(before[k], stamp)
    && out[k + 1] == before[k + 1].(isActive := true)
    && forall j :: 0 <= j < |out| && j != k && j != k + 1 ==> out[j] == before[j]
  }

  /** On rounds already in deadline order with round k the only active one,
      a successful activation is the step at k, and round k was past due. */
  lemma AdvanceSortedStep(rounds: seq<Round>, k: nat, today: Day, stamp: Option<Instant>)
    requires SortedByDeadline(rounds) && ActiveOnlyAt(rounds, k)
    requires Advance(rounds, today, stamp).Ok?
    ensures SteppedAt(rounds, k, stamp, Advance(rounds, today, stamp).value)
    ensures rounds[k].deadline < today
  {
    SortSortedIsIdentity(rounds);
    SortOrderOfSorted(rounds);
    assert FirstActive(rounds) == Some(k) by {
      var f := FirstActive(rounds).value;
      assert rounds[f].isActive;
    }
  }

  /** The step at k moves the only active flag from k to k + 1, keeps the
      order, ids and deadlines, and touches only round k's stamp. */
  lemma SteppedAtFacts(before: seq<Round>, k: nat, stamp: Option<Instant>, out: seq<Round>)
    requires SortedByDeadline(before) && ActiveOnlyAt(before, k) && SteppedAt(before, k, stamp, out)
    ensures SortedByDeadline(out) && ActiveOnlyAt(out, k + 1)
    ensures forall j :: 0 <= j < |out| ==> out[j].id == before[j].id && out[j].deadline == before[j].deadline
    ensures out[k].activatedAt == (if stamp.Some? then stamp else before[k].activatedAt)
    ensures forall j :: 0 <= j < |out| && j != k ==> out[j].activatedAt == before[j].activatedAt
  {
    assert forall j :: 0 <= j < |out| ==> out[j].deadline == before[j].deadline;
  }

  // ---------------------------------------------------------------------
  // The lifecycle
  // ---------------------------------------------------------------------

  /** One activation request: the day and time it arrives. */
  datatype Call = Call(today: Day, now: Instant)

  /** Service activations of one task, one per call, stopping at the first refusal. */
  function RunActivations(db: Db, id: TaskId, calls: seq<Call>): (r: Response<Db>)
    ensures r.Ok? && id in db.tasks ==> id in r.value.tasks
    decreases |calls|
  {
    if |calls| == 0 then Ok(db)
    else
      match ActivateNextRound(db, id, calls[0].today, calls[0].now)
      case Err(s, why) => Err(s, why)
      case Ok(next) => RunActivations(next, id, calls[1..])
  }

  /** The same run on the rounds alone. */
  function RunRounds(rs: seq<Round>, calls: seq<Call>): Option<seq<Round>>
    decreases |calls|
  {
    if |calls| == 0 then Some(rs)
    else
      match Advance(rs, calls[0].today, Some(calls[0].now))
      case Err(_, _) => None
      case Ok(next) => RunRounds(next, calls[1..])
  }

  lemma {:induction false} RunActivationsRounds(db: Db, id: TaskId, calls: seq<Call>)
    requires id in db.tasks
    ensures RunActivations(db, id, calls).Ok? <==> RunRounds(db.tasks[id].rounds, calls).Some?
    ensures RunActivations(db, id, calls).Ok? ==>
      RunActivations(db, id, calls).value.tasks[id].rounds == RunRounds(db.tasks[id].rounds, calls).value
    decreases |calls|
  {
    if |calls| > 0 {
      var c := calls[0];
      var step := Activate(db, id, c.today, Some(c.now));
      assert ActivateNextRound(db, id, c.today, c.now) == step;
      if step.Ok? {
        RunActivationsRounds(step.value, id, calls[1..]);
      }
    }
  }

  /** Rounds k, k + 1, ... carry the times of the calls in order. */
  predicate StampedFrom(rs: seq<Round>, k: nat, calls: seq<Call>) {
    k + |calls| <= |rs| && forall j :: 0 <= j < |calls| ==> rs[k + j].activatedAt == Some(calls[j].now)
  }

  /** Successful activations from round k walk the active flag forward one
      round per call and keep the order, ids and deadlines. */
  lemma {:induction false} RunShape(rs: seq<Round>, k: nat, calls: seq<Call>)
    requires SortedByDeadline(rs) && ActiveOnlyAt(rs, k)
    requires RunRounds(rs, calls).Some?
    ensures |RunRounds(rs, calls).value| == |rs|
    ensures SortedByDeadline(RunRounds(rs, calls).value)
    ensures ActiveOnlyAt(RunRounds(rs, calls).value, k + |calls|)
    ensures forall j :: 0 <= j < |rs| ==> RunRounds(rs, calls).value[j].id == rs[j].id
    ensures forall j :: 0 <= j < |rs| ==> RunRounds(rs, calls).value[j].deadline == rs[j].deadline
    decreases |calls|
  {
    if |calls| > 0 {
      var c := calls[0];
      var mid := Advance(rs, c.today, Some(c.now)).value;
      AdvanceSortedStep(rs, k, c.today, Some(c.now));
      SteppedAtFacts(rs, k, Some(c.now), mid);
      RunShape(mid, k + 1, calls[1..]);
    }
  }

  /** ... and stamp each round they leave with the time of the call that
      left it, touching no other stamp. */
  lemma {:induction false} RunStamps(rs: seq<Round>, k: nat, calls: seq<Call>)
    requires SortedByDeadline(rs) && ActiveOnlyAt(rs, k)
    requires RunRounds(rs, calls).Some?
    ensures |RunRounds(rs, calls).value| == |rs|
    ensures StampedFrom(RunRounds(rs, calls).value, k, calls)
    ensures forall j :: 0 <= j < |rs| && (j < k || k + |calls| <= j) ==>
      RunRounds(rs, calls).value[j].activatedAt == rs[j].activatedAt
  {
    RunStampsFrom(rs, k, calls);
    RunKeepsOtherStamps(rs, k, calls);
  }

  lemma {:induction false} RunStampsFrom(rs: seq<Round>, k: nat, calls: seq<Call>)
    requires SortedByDeadline(rs) && ActiveOnlyAt(rs, k)
    requires RunRounds(rs, calls).Some?
    ensures StampedFrom(RunRounds(rs, calls).value, k, calls)
    decreases |calls|
  {
    if |calls| > 0 {
      var c, rest := calls[0], calls[1..];
      var mid := Advance(rs, c.today, Some(c.now)).value;
      RunFirstStep(rs, k, calls);
      RunStampsFrom(mid, k + 1, rest);
      RunKeepsOtherStamps(mid, k + 1, rest);
      var out := RunRounds(mid, rest).value;
      assert out[k].activatedAt == mid[k].activatedAt == Some(c.now);
      assert forall j :: 0 <= j < |rest| ==> out[(k + 1) + j].activatedAt == Some(rest[j].now);
      forall j | 0 < j < |calls| ensures out[k + j].activatedAt == Some(calls[j].now) {
        assert rest[j - 1] == calls[j] && (k + 1) + (j - 1) == k + j;
      }
    }
  }

  /** The first call of a successful run steps from round k to k + 1 and
      stamps round k; the rest of the run starts from there. */
  lemma RunFirstStep(rs: seq<Round>, k: nat, calls: seq<Call>)
    requires SortedByDeadline(rs) && ActiveOnlyAt(rs, k)
    requires RunRounds(rs, calls).Some? && |calls| > 0
    ensures Advance(rs, calls[0].today, Some(calls[0].now)).Ok?
    ensures var mid := Advance(rs, calls[0].today, Some(calls[0].now)).value;
      && |mid| == |rs| && SortedByDeadline(mid) && ActiveOnlyAt(mid, k + 1)
      && mid[k].activatedAt == Some(calls[0].now)
      && RunRounds(mid, calls[1..]) == RunRounds(rs, calls)
  {
    var c := calls[0];
    var mid := Advance(rs, c.today, Some(c.now)).value;
    AdvanceSortedStep(rs, k, c.today, Some(c.now));
    SteppedAtFacts(rs, k, Some(c.now), mid);
  }

  lemma {:induction false} RunKeepsOtherStamps(rs: seq<Round>, k: nat, calls: seq<Call>)
    requires SortedByDeadline(rs) && ActiveOnlyAt(rs, k)
    requires RunRounds(rs, calls).Some?
    ensures |RunRounds(rs, calls).value| == |rs|
    ensures forall j :: 0 <= j < |rs| && (j < k || k + |calls| <= j) ==>
      RunRounds(rs, calls).value[j].activatedAt == rs[j].activatedAt
    decreases |calls|
  {
    RunShape(rs, k, calls);
    if |calls| > 0 {
      var c := calls[0];
      var mid := Advance(rs, c.today, Some(c.now)).value;
      AdvanceSortedStep(rs, k, c.today, Some(c.now));
      SteppedAtFacts(rs, k, Some(c.now), mid);
      RunKeepsOtherStamps(mid, k + 1, calls[1..]);
    }
  }

  /** From a freshly created task, n successful activations leave round n
      (in deadline order) the only active one, with rounds 0 .. n-1 each
      stamped with the time of the call that left it. */
  lemma CreateThenActivate(db: Db, t: Task, id: TaskId, calls: seq<Call>)
    requires id !in db.tasks && |t.rounds| > 0
    requires CreateTask(db, t, id).Ok?
    requires RunActivations(CreateTask(db, t, id).value, id, calls).Ok?
    ensures var created := CreateTask(db, t, id).value.tasks[id].rounds;
      var out := RunActivations(CreateTask(db, t, id).value, id, calls).value.tasks[id].rounds;
      && |calls| < |t.rounds| && |out| == |created|
      && ActiveOnlyAt(out, |calls|)
      && (forall j :: 0 <= j < |out| ==> out[j].id == created[j].id)
      && StampedFrom(out, 0, calls)
  {
    var db1 := CreateTask(db, t, id).value;
    var created := db1.tasks[id].rounds;
    assert |created| == |t.rounds| && SortedByDeadline(created) && ActiveOnlyAt(created, 0);
    RunActivationsRounds(db1, id, calls);
    RunShape(created, 0, calls);
    RunStamps(created, 0, calls);
  }

  /** An activation keeps the database consistent: deadlines do not move,
      so the task's synchronised deadline still holds. */
  lemma ActivateKeepsConsistent(db: Db, id: TaskId, today: Day, stamp: Option<Instant>)
    requires Consistent(db)
    ensures Activate(db, id, today, stamp).Ok? ==> Consistent(Activate(db, id, today, stamp).value)
  {
    var r := Activate(db, id, today, stamp);
    if r.Ok? {
      var t := db.tasks[id];
      var rs := Advance(t.rounds, today, stamp).value;
      assert r.value.tasks == db.tasks[id := t.(rounds := rs)];
      AdvanceKeepsOwnership(t.rounds, today, stamp, id);
      assert TaskConsistent(t.(rounds := rs), id);
    }
  }

  /** A successful step keeps the rounds' owner and their earliest deadline. */
  lemma AdvanceKeepsOwnership(rounds: seq<Round>, today: Day, stamp: Option<Instant>, id: TaskId)
    requires forall j :: 0 <= j < |rounds| ==> rounds[j].taskId == id
    requires Advance(rounds, today, stamp).Ok?
    ensures var rs := Advance(rounds, today, stamp).value;
      && |rs| == |rounds| > 0
      && (forall j :: 0 <= j < |rs| ==> rs[j].taskId == id)
      && MinDeadline(rs) == MinDeadline(rounds)
  {
    var rs := Advance(rounds, today, stamp).value;
    assert SameRows(rounds, rs);
    assert forall j :: 0 <= j < |rs| ==> rs[j].deadline == rounds[j].deadline && rs[j].taskId == rounds[j].taskId;
    MinDeadlineSameDeadlines(rounds, rs);
  }

  /** The earliest deadline depends only on which rounds there are. */
  lemma MinDeadlineSameMembers(a: seq<Round>, b: seq<Round>)
    requires |a| > 0 && forall x :: x in a <==> x in b
    ensures |b| > 0 && MinDeadline(a) == MinDeadline(b)
  {
    assert a[0] in b;
    var ma := MinDeadline(a);
    var mb := MinDeadline(b);
    var i :| 0 <= i < |a| && a[i].deadline == ma;
    var j :| 0 <= j < |b| && b[j].deadline == mb;
    assert a[i] in b;
    assert b[j] in a;
  }

  /** ... and only on their deadlines, position by position. */
  lemma MinDeadlineSameDeadlines(a: seq<Round>, b: seq<Round>)
    requires |a| == |b| > 0 && forall j :: 0 <= j < |a| ==> a[j].deadline == b[j].deadline
    ensures MinDeadline(a) == MinDeadline(b)
  {
    var ma := MinDeadline(a);
    var mb := MinDeadline(b);
    var i :| 0 <= i < |a| && a[i].deadline == ma;
    var j :| 0 <= j < |b| && b[j].deadline == mb;
    assert ma <= a[j].deadline && mb <= b[i].deadline;
  }
}
