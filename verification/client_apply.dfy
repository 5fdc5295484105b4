/** The task page (`Apply.tsx`): how it merges the task's applications
    with its rounds' applications, which application is the user's, and
    which of the status card, the upload card and the review it shows. */
module ApplyPage {
  import opened Wrappers
  import opened Seqs
  import JsMap
  import opened Entities
  import opened ClientTypes
  import opened ApplicantView

  /** `data.rounds?.flatMap(r => r.applications || []) || []`, for rounds
      that are present. */
  function RoundApplications(rs: seq<CRound>): (apps: seq<CApp>)
    ensures forall a :: a in apps <==> exists i :: 0 <= i < |rs| && a in rs[i].applications
    decreases |rs|
  {
    if |rs| == 0 then []
    else
      var rest := RoundApplications(rs[1..]);
      assert forall i :: 1 <= i < |rs| ==> rs[i] == rs[1..][i - 1];
      rs[0].applications + rest
  }

  /** The task's own applications followed by its rounds' applications,
      in the order the page feeds them to the merge. */
  function AllApplications(direct: seq<CApp>, rounds: Option<seq<CRound>>): seq<CApp> {
    direct + (if rounds.Some? then RoundApplications(rounds.value) else [])
  }

  function IdEntry(a: CApp): seq<(int, CApp)> {
    if a.id.Some? then [(a.id.value, a)] else []
  }

  /** The `uniqueMap.set(app.id, app)` calls the merge makes: one for each
      application that has an id, in order. */
  function IdEntries(apps: seq<CApp>): (es: seq<(int, CApp)>)
    ensures forall i :: 0 <= i < |es| ==> es[i].1.id == Some(es[i].0)
    ensures forall k :: k in JsMap.Keys(es) <==> HasId(apps, k)
    decreases |apps|
  {
    if |apps| == 0 then []
    else
      var head := IdEntry(apps[0]);
      var rest := IdEntries(apps[1..]);
      assert JsMap.Keys(head + rest) == JsMap.Keys(head) + JsMap.Keys(rest);
      assert apps[0].id.Some? ==> JsMap.Keys(head) == [apps[0].id.value];
      forall k ensures HasId(apps, k) <==> apps[0].id == Some(k) || HasId(apps[1..], k) {
        HasIdCons(apps, k);
      }
      head + rest
  }

  /** Some application in the list carries id `k`. */
  predicate HasId(apps: seq<CApp>, k: int) {
    exists a :: a in apps && a.id == Some(k)
  }

  lemma HasIdCons(apps: seq<CApp>, k: int)
    requires |apps| > 0
    ensures HasId(apps, k) <==> apps[0].id == Some(k) || HasId(apps[1..], k)
  {
    if HasId(apps, k) {
      var a :| a in apps && a.id == Some(k);
      assert a == apps[0] || a in apps[1..];
    }
    if HasId(apps[1..], k) {
      var a :| a in apps[1..] && a.id == Some(k);
      assert a in apps;
    }
    if apps[0].id == Some(k) {
      assert apps[0] in apps;
    }
  }

  lemma {:induction false} IdEntriesConcat(a: seq<CApp>, b: seq<CApp>)
    ensures IdEntries(a + b) == IdEntries(a) + IdEntries(b)
    decreases |a|
  {
    if |a| > 0 {
      var ab := a + b;
      assert ab[0] == a[0] && ab[1..] == a[1..] + b;
      assert IdEntries(ab) == IdEntry(a[0]) + IdEntries(a[1..] + b);
      assert IdEntries(a) == IdEntry(a[0]) + IdEntries(a[1..]);
      IdEntriesConcat(a[1..], b);
    } else {
      assert a + b == b;
    }
  }

  /** `j` is the last position holding an application with id `k`. */
  predicate IsLastWithId(apps: seq<CApp>, j: int, k: int) {
    0 <= j < |apps| && apps[j].id == Some(k) && forall j' :: j < j' < |apps| ==> apps[j'].id != Some(k)
  }

  /** The merge keeps, for each id, the last application carrying it. */
  lemma {:induction false} MergedValueIsLast(apps: seq<CApp>, k: int)
    requires k in JsMap.Keys(IdEntries(apps))
    ensures exists j :: IsLastWithId(apps, j, k) && JsMap.LastValue(IdEntries(apps), k) == apps[j]
    decreases |apps|
  {
    var n := |apps| - 1;
    var init, last := apps[..n], [apps[n]];
    assert apps == init + last;
    IdEntriesConcat(init, last);
    var ei, el := IdEntries(init), IdEntries(last);
    assert JsMap.Keys(ei + el) == JsMap.Keys(ei) + JsMap.Keys(el);
    if apps[n].id == Some(k) {
      assert el == [(k, apps[n])];
      assert JsMap.Keys(el) == [k];
      JsMap.LastValueConcat(ei, el, k);
      LastWithIdAtEnd(init, apps[n], k);
    } else {
      assert el == [] || el == [(apps[n].id.value, apps[n])];
      assert k !in JsMap.Keys(el);
      JsMap.LastValueSkip(ei, el, k);
      MergedValueIsLast(init, k);
      var j :| IsLastWithId(init, j, k) && JsMap.LastValue(ei, k) == init[j];
      LastWithIdKept(init, apps[n], j, k);
    }
  }

  lemma LastWithIdAtEnd(init: seq<CApp>, x: CApp, k: int)
    requires x.id == Some(k)
    ensures IsLastWithId(init + [x], |init|, k) && (init + [x])[|init|] == x
  {
  }

  lemma LastWithIdKept(init: seq<CApp>, x: CApp, j: int, k: int)
    requires IsLastWithId(init, j, k) && x.id != Some(k)
    ensures IsLastWithId(init + [x], j, k) && (init + [x])[j] == init[j]
  {
  }

  /** The ids of applications that all have one. */
  function Ids(apps: seq<CApp>): (ks: seq<int>)
    requires forall i :: 0 <= i < |apps| ==> apps[i].id.Some?
    ensures |ks| == |apps|
  {
    seq(|apps|, i requires 0 <= i < |apps| => apps[i].id.value)
  }

  /** The merge itself: `Array.from(uniqueMap.values())`. */
  function MergeById(apps: seq<CApp>): seq<CApp> {
    JsMap.Values(JsMap.Build(IdEntries(apps)))
  }

  /** The value an id ends up with in the map is an application with that
      id. */
  lemma {:induction false} LastValueHasId(es: seq<(int, CApp)>, k: int)
    requires k in JsMap.Keys(es)
    requires forall i :: 0 <= i < |es| ==> es[i].1.id == Some(es[i].0)
    ensures JsMap.LastValue(es, k).id == Some(k)
    decreases |es|
  {
    var n := |es| - 1;
    if es[n].0 != k {
      assert JsMap.Keys(es) == JsMap.Keys(es[..n]) + [es[n].0];
      LastValueHasId(es[..n], k);
    }
  }

  /** The merged applications are the map's values, and each carries the
      map key it is stored under. */
  lemma MergeByIdCarriesKeys(apps: seq<CApp>)
    ensures forall i :: 0 <= i < |MergeById(apps)| ==> MergeById(apps)[i].id.Some?
    ensures Ids(MergeById(apps)) == JsMap.Keys(JsMap.Build(IdEntries(apps)))
  {
    var es := IdEntries(apps);
    var m := JsMap.Build(es);
    var r := JsMap.Values(m);
    forall i | 0 <= i < |r| ensures r[i].id == Some(m[i].0) {
      LastValueHasId(es, m[i].0);
    }
  }

  /** Every merged application has an id, and the ids are those of the
      input, each once, in the order of their first appearance. */
  lemma MergeByIdKeys(apps: seq<CApp>)
    ensures forall i :: 0 <= i < |MergeById(apps)| ==> MergeById(apps)[i].id.Some?
    ensures Ids(MergeById(apps)) == Dedup(JsMap.Keys(IdEntries(apps)))
    ensures NoDup(Ids(MergeById(apps)))
    ensures forall k :: k in Ids(MergeById(apps)) <==> exists a :: a in apps && a.id == Some(k)
  {
    MergeByIdCarriesKeys(apps);
    JsMap.BuildKeysOnce(IdEntries(apps));
    var ks := Ids(MergeById(apps));
    assert ks == JsMap.Keys(JsMap.Build(IdEntries(apps)));
  }

  /** Each merged application is the last copy of its id in the input. */
  lemma MergeByIdValues(apps: seq<CApp>)
    ensures forall i :: 0 <= i < |MergeById(apps)| ==>
      MergeById(apps)[i].id.Some? &&
      exists j :: IsLastWithId(apps, j, MergeById(apps)[i].id.value) && MergeById(apps)[i] == apps[j]
  {
    var es := IdEntries(apps);
    var m := JsMap.Build(es);
    var r := JsMap.Values(m);
    forall i | 0 <= i < |r|
      ensures r[i].id.Some? && exists j :: IsLastWithId(apps, j, r[i].id.value) && r[i] == apps[j]
    {
      LastValueHasId(es, m[i].0);
      MergedValueIsLast(apps, m[i].0);
    }
  }

  /** An id present in the input sits in the merge as its last copy. */
  lemma MergedPosition(apps: seq<CApp>, k: int)
    requires HasId(apps, k)
    ensures exists i, j :: 0 <= i < |MergeById(apps)| && IsLastWithId(apps, j, k) && MergeById(apps)[i] == apps[j]
  {
    var es := IdEntries(apps);
    var m := JsMap.Build(es);
    var r := JsMap.Values(m);
    assert k in JsMap.Keys(es);
    assert k in JsMap.Keys(m);
    var i :| 0 <= i < |m| && JsMap.Keys(m)[i] == k;
    assert r[i] == JsMap.LastValue(es, k);
    MergedValueIsLast(apps, k);
    var j :| IsLastWithId(apps, j, k) && JsMap.LastValue(es, k) == apps[j];
    assert MergeById(apps) == r;
    assert 0 <= i < |r| && IsLastWithId(apps, j, k) && r[i] == apps[j];
  }

  /** When a round lists an application, the merged list holds a round's
      copy of it, never the task's own copy. */
  lemma RoundCopyWins(direct: seq<CApp>, rs: seq<CRound>, k: int)
    requires exists a :: a in RoundApplications(rs) && a.id == Some(k)
    ensures var all := AllApplications(direct, Some(rs));
      var r := MergeById(all);
      exists i, j :: 0 <= i < |r| && r[i].id == Some(k) && |direct| <= j < |all| && r[i] == all[j]
  {
    var all := AllApplications(direct, Some(rs));
    var ra := RoundApplications(rs);
    var a :| a in ra && a.id == Some(k);
    var t :| 0 <= t < |ra| && ra[t] == a;
    assert all[|direct| + t] == a;
    assert HasId(all, k) by {
      assert a in all;
    }
    MergedPosition(all, k);
    var r := MergeById(all);
    var i, j :| 0 <= i < |r| && IsLastWithId(all, j, k) && r[i] == all[j];
    assert |direct| + t <= j;
  }

  /** `myApplication`: the first merged application the user submitted. */
  function MyApplication(apps: seq<CApp>, viewer: Option<User>): (r: Option<CApp>)
    ensures r.None? <==> forall i :: 0 <= i < |apps| ==> !IsUserId(viewer, apps[i].userId)
    ensures r.Some? ==> exists i :: 0 <= i < |apps| && apps[i] == r.value && IsUserId(viewer, apps[i].userId) &&
                                      forall j :: 0 <= j < i ==> !IsUserId(viewer, apps[j].userId)
    decreases |apps|
  {
    if |apps| == 0 then None
    else if IsUserId(viewer, apps[0].userId) then Some(apps[0])
    else
      assert forall i :: 0 < i < |apps| ==> apps[i] == apps[1..][i - 1];
      MyApplication(apps[1..], viewer)
  }

  /** Whether the task page has a review to show for `a`. */
  predicate ReviewShown(a: CApp, et: EvaluationType) {
    match et
    case TEXT => Truthy(a.reviewText)
    case POINTS => HasPoints(a.reviewPoints)
    case BOTH => Truthy(a.reviewText) || HasPoints(a.reviewPoints)
  }

  /** `renderMyReview`: nothing without an application or an evaluation
      type; under TEXT the text if it is non-empty, under POINTS the points
      if they are set, under BOTH whichever of the two is there. */
  function RenderMyReview(mine: Option<CApp>, et: Option<EvaluationType>): (r: Option<ReviewBox>)
    ensures r.Some? <==> mine.Some? && et.Some? && ReviewShown(mine.value, et.value)
    ensures r.Some? ==> r == ReviewBoxOf(mine.value, et)
  {
    if mine.None? || et.None? then None
    else
      var a := mine.value;
      match et.value
      case TEXT => if Truthy(a.reviewText) then Some(ReviewBox(a.reviewText, NullPoints)) else None
      case POINTS => if HasPoints(a.reviewPoints) then Some(ReviewBox(None, a.reviewPoints)) else None
      case BOTH =>
        if Truthy(a.reviewText) || HasPoints(a.reviewPoints) then
          Some(ReviewBox(if Truthy(a.reviewText) then a.reviewText else None, a.reviewPoints))
        else None
  }

  /** The round view shows an empty review box for points given on a
      text-reviewed task; this page shows nothing. */
  lemma TextTaskHidesPointsOnlyReview(a: CApp)
    requires !Truthy(a.reviewText) && HasPoints(a.reviewPoints)
    ensures RenderMyReview(Some(a), Some(TEXT)).None?
    ensures ReviewBoxOf(a, Some(TEXT)) == Some(ReviewBox(None, NullPoints))
  {
  }

  /** What the page shows below the task: whether the task is editable,
      the status card with the user's review (if any), and the upload card.
      `ApplyViewOf` reads the task's applications as given; the page gives
      it `FetchedTask` of the served task, whose applications are the
      merge (see `FetchedViewOf`). */
  datatype ApplyView = ApplyView(editable: bool, statusCard: Option<Option<ReviewBox>>, uploadCard: bool)

  function ApplyViewOf(t: CTask, viewer: Option<User>): (v: ApplyView)
    ensures v.editable <==> IsUserName(viewer, t.creator)
    ensures v.statusCard.Some? <==>
      (exists i :: 0 <= i < |t.applications| && IsUserId(viewer, t.applications[i].userId)) &&
      (t.rounds.None? || |t.rounds.value| == 0)
    ensures v.uploadCard <==>
      !IsUserName(viewer, t.creator) &&
      (forall i :: 0 <= i < |t.applications| ==> !IsUserId(viewer, t.applications[i].userId)) &&
      t.rounds == Some([])
    ensures v.statusCard.Some? && v.statusCard.value.Some? ==>
      exists a :: a in t.applications && IsUserId(viewer, a.userId) && v.statusCard.value == ReviewBoxOf(a, t.evaluationType)
  {
    var mine := MyApplication(t.applications, viewer);
    ApplyView(
      IsUserName(viewer, t.creator),
      if mine.Some? && (t.rounds.None? || |t.rounds.value| == 0) then Some(RenderMyReview(mine, t.evaluationType)) else None,
      !IsUserName(viewer, t.creator) && mine.None? && t.rounds.Some? && |t.rounds.value| == 0)
  }

  /** The task as `fetchTask` stores it: the served task with its
      applications replaced by the merge of its own and its rounds'. */
  function FetchedTask(data: CTask): (t: CTask)
    ensures t == data.(applications := t.applications)
    ensures forall a :: a in t.applications ==> a.id.Some? && a in AllApplications(data.applications, data.rounds)
  {
    var all := AllApplications(data.applications, data.rounds);
    MergeByIdValues(all);
    data.(applications := MergeById(all))
  }

  /** On the page as fetched, the status card shows only for a viewer
      who has an application with an id among the task's or its rounds';
      and on a task without rounds it does show for a viewer who has one
      whose id no other served copy carries. */
  lemma FetchedViewOf(data: CTask, viewer: Option<User>)
    ensures var all := AllApplications(data.applications, data.rounds);
      ApplyViewOf(FetchedTask(data), viewer).statusCard.Some? ==>
        exists a :: a in all && a.id.Some? && IsUserId(viewer, a.userId)
    ensures var all := AllApplications(data.applications, data.rounds);
      (data.rounds.None? || |data.rounds.value| == 0) &&
      (exists a :: a in all && a.id.Some? && IsUserId(viewer, a.userId) &&
         forall b :: b in all && b.id == a.id ==> b == a) ==>
        ApplyViewOf(FetchedTask(data), viewer).statusCard.Some?
  {
    var all := AllApplications(data.applications, data.rounds);
    var t := FetchedTask(data);
    if ApplyViewOf(t, viewer).statusCard.Some? {
      var i :| 0 <= i < |t.applications| && IsUserId(viewer, t.applications[i].userId);
      assert t.applications[i] in t.applications;
    }
    if (data.rounds.None? || |data.rounds.value| == 0) &&
       (exists a :: a in all && a.id.Some? && IsUserId(viewer, a.userId) && forall b :: b in all && b.id == a.id ==> b == a) {
      var a :| a in all && a.id.Some? && IsUserId(viewer, a.userId) && forall b :: b in all && b.id == a.id ==> b == a;
      assert HasId(all, a.id.value);
      MergedPosition(all, a.id.value);
      var i, j :| 0 <= i < |MergeById(all)| && IsLastWithId(all, j, a.id.value) && MergeById(all)[i] == all[j];
      assert all[j] in all && all[j] == a;
      assert t.applications[i] == a;
    }
  }

  /** The status card and the upload card never show together, and the
      task's creator is never offered the upload card. */
  lemma StatusAndUploadExclusive(t: CTask, viewer: Option<User>)
    ensures !(ApplyViewOf(t, viewer).statusCard.Some? && ApplyViewOf(t, viewer).uploadCard)
    ensures ApplyViewOf(t, viewer).editable ==> !ApplyViewOf(t, viewer).uploadCard
  {
  }
}
