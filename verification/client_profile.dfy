/** The profile page (`Profile.tsx`): the tasks the user applied for,
    built from their applications, and the tasks they created. */
module ProfilePage {
  import opened Wrappers
  import opened Seqs
  import JsMap
  import opened ClientTypes

  /** The task an application belongs to: its own `task`, else its round's
      task. */
  function TaskOf(a: CApp): (t: Option<TaskRef>)
    ensures a.task.Some? ==> t == a.task
    ensures a.task.None? ==> (t.Some? <==> a.round.Some? && a.round.value.task.Some?)
    ensures a.task.None? && t.Some? ==> t == a.round.value.task
  {
    if a.task.Some? then a.task
    else if a.round.Some? && a.round.value.task.Some? then a.round.value.task
    else None
  }

  /** An application belongs to a task with id `k`. */
  predicate AppliedTo(a: CApp, k: int) {
    TaskOf(a).Some? && TaskOf(a).value.id == k
  }

  /** The `taskMap.set(task.id, task)` calls: one per application whose task
      is known, in order. */
  function TaskEntries(apps: seq<CApp>): (es: seq<(int, TaskRef)>)
    ensures forall i :: 0 <= i < |es| ==> es[i].1.id == es[i].0
    ensures forall i :: 0 <= i < |es| ==> exists a :: a in apps && TaskOf(a) == Some(es[i].1)
    ensures forall k :: k in JsMap.Keys(es) <==> exists a :: a in apps && AppliedTo(a, k)
    decreases |apps|
  {
    if |apps| == 0 then []
    else
      var t := TaskOf(apps[0]);
      var head := if t.Some? then [(t.value.id, t.value)] else [];
      var rest := TaskEntries(apps[1..]);
      assert JsMap.Keys(head + rest) == JsMap.Keys(head) + JsMap.Keys(rest);
      assert t.Some? ==> JsMap.Keys(head) == [t.value.id];
      assert forall a :: a in apps <==> a == apps[0] || a in apps[1..];
      head + rest
  }

  /** The ids of a list of tasks. */
  function TaskIds(ts: seq<TaskRef>): (ks: seq<int>)
    ensures |ks| == |ts|
  {
    seq(|ts|, i requires 0 <= i < |ts| => ts[i].id)
  }

  /** `appliedTasks`: `Array.from(taskMap.values())`. */
  function AppliedTasks(apps: seq<CApp>): seq<TaskRef> {
    JsMap.Values(JsMap.Build(TaskEntries(apps)))
  }

  /** Each applied-for task appears once, every task the applications
      point to appears, and each entry is one of those tasks. */
  lemma AppliedTasksSpec(apps: seq<CApp>)
    ensures NoDup(TaskIds(AppliedTasks(apps)))
    ensures forall k :: k in TaskIds(AppliedTasks(apps)) <==> exists a :: a in apps && AppliedTo(a, k)
    ensures forall i :: 0 <= i < |AppliedTasks(apps)| ==>
      exists a :: a in apps && TaskOf(a) == Some(AppliedTasks(apps)[i])
  {
    var es := TaskEntries(apps);
    var m := JsMap.Build(es);
    var r := JsMap.Values(m);
    forall i | 0 <= i < |r|
      ensures r[i].id == m[i].0 && exists a :: a in apps && TaskOf(a) == Some(r[i])
    {
      JsMap.LastValueIsEntry(es, m[i].0);
    }
    assert TaskIds(r) == JsMap.Keys(m);
    JsMap.BuildKeysOnce(es);
  }

  /** The "Applied Tasks" count is the number of distinct tasks the user
      applied for, however many applications (one per round) they have. */
  lemma AppliedTasksCount(apps: seq<CApp>)
    ensures |AppliedTasks(apps)| == |set a | a in apps && TaskOf(a).Some? :: TaskOf(a).value.id|
  {
    AppliedTasksSpec(apps);
    var ids := TaskIds(AppliedTasks(apps));
    NoDupCardinality(ids);
    var applied := set a | a in apps && TaskOf(a).Some? :: TaskOf(a).value.id;
    forall k | k in applied ensures k in ids {
      var a :| a in apps && TaskOf(a).Some? && TaskOf(a).value.id == k;
      assert AppliedTo(a, k);
    }
    forall k | k in ids ensures k in applied {
      var a :| a in apps && AppliedTo(a, k);
    }
    assert (set x | x in ids) == applied;
  }

  /** `myTasks`: the tasks the user created. */
  function MyTasks(ts: seq<CTask>, viewer: Option<User>): (r: seq<CTask>)
    ensures forall t :: t in r <==> t in ts && IsUserName(viewer, t.creator)
    ensures IsSubsequence(r, ts)
  {
    FilterIsSubsequence(ts, (t: CTask) => IsUserName(viewer, t.creator));
    Filter(ts, (t: CTask) => IsUserName(viewer, t.creator))
  }

  /** The two counts the profile shows. Without a user id the applications
      are never fetched, and a failed fetch leaves the list empty. */
  datatype Stats = Stats(applied: nat, created: nat)

  function ProfileStats(viewer: Option<User>, tasks: seq<CTask>, fetched: Option<seq<CApp>>): (s: Stats)
    ensures (viewer.None? || viewer.value.id == "" || fetched.None?) ==> s.applied == 0
    ensures viewer.Some? && viewer.value.id != "" && fetched.Some? ==> s.applied == |AppliedTasks(fetched.value)|
    ensures s.created == |MyTasks(tasks, viewer)|
    ensures viewer.None? ==> s.created == 0
  {
    if viewer.None? then
      var mine := MyTasks(tasks, viewer);
      assert |mine| == 0;
      Stats(0, 0)
    else
      var applied := if viewer.value.id == "" || fetched.None? then [] else AppliedTasks(fetched.value);
      Stats(|applied|, |MyTasks(tasks, viewer)|)
  }
}
