/** The public list of tasks open for applications (`ActiveTasks.tsx`). */
module ActiveTasksPage {
  import opened Wrappers
  import opened Seqs
  import opened ClientTypes
  import opened ClientDates

  /** Milliseconds in a day: a date-only ISO string denotes midnight UTC,
      `day * MsPerDay` milliseconds after the epoch. */
  const MsPerDay: int := 86400000

  /** `deadlineOk`: no deadline, or a deadline whose midnight is after the
      current instant `now` (milliseconds since the epoch). Text that is not
      a date gives an invalid date, which compares as false. */
  predicate DeadlineOk(deadline: string, now: int) {
    deadline == "" || (DateOnly(deadline).Some? && DateOnly(deadline).value * MsPerDay > now)
  }

  /** `firstRound`: the first round, when the task has rounds. */
  function FirstRound(t: CTask): (r: Option<CRound>)
    ensures r.Some? <==> t.rounds.Some? && |t.rounds.value| > 0
    ensures r.Some? ==> r.value == t.rounds.value[0]
  {
    if t.rounds.Some? && |t.rounds.value| > 0 then Some(t.rounds.value[0]) else None
  }

  /** A task is listed when its deadline has not passed and it either has
      no rounds or its first round is the active one. */
  predicate Visible(t: CTask, now: int) {
    var first := FirstRound(t);
    (DeadlineOk(t.applicationDeadline, now) && first.Some? && first.value.isActive) ||
    (DeadlineOk(t.applicationDeadline, now) && first.None?)
  }

  /** `activeVisibleTasks`: the listed tasks, in the server's order. */
  function ActiveVisibleTasks(ts: seq<CTask>, now: int): (r: seq<CTask>)
    ensures forall t :: t in r <==> t in ts && Visible(t, now)
    ensures IsSubsequence(r, ts)
  {
    FilterIsSubsequence(ts, (t: CTask) => Visible(t, now));
    Filter(ts, (t: CTask) => Visible(t, now))
  }

  /** A task whose deadline has passed is not listed. */
  lemma DeadlinePassedHides(ts: seq<CTask>, t: CTask, now: int)
    requires t.applicationDeadline != ""
    requires DateOnly(t.applicationDeadline).None? || DateOnly(t.applicationDeadline).value * MsPerDay <= now
    ensures t !in ActiveVisibleTasks(ts, now)
  {
  }

  /** A task whose first round is not active is not listed, whatever its
      deadline: once a later round is active, the task leaves the list. */
  lemma FirstRoundClosedHides(ts: seq<CTask>, t: CTask, now: int)
    requires t.rounds.Some? && |t.rounds.value| > 0 && !t.rounds.value[0].isActive
    ensures t !in ActiveVisibleTasks(ts, now)
  {
  }

  /** The list only shrinks as time passes: a task listed later was listed
      before. */
  lemma VisibleEarlier(t: CTask, earlier: int, later: int)
    requires earlier <= later && Visible(t, later)
    ensures Visible(t, earlier)
  {
  }

  /** Each visible task is there for one of the two reasons, never for
      both. */
  lemma VisibleReasons(t: CTask, now: int)
    requires Visible(t, now)
    ensures DeadlineOk(t.applicationDeadline, now)
    ensures t.rounds.None? || |t.rounds.value| == 0 || t.rounds.value[0].isActive
  {
  }
}
