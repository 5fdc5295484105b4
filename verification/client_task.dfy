/** The pure computations of the task page (`Task.tsx`): the active round
    and its applicants, the selection of applicants to eliminate and the
    list sent when the elimination is saved, the points a reviewer types,
    the local update after a review is saved, the task update sent on
    save, and when the "Activate Next Round" action is offered. */
module ClientTask {
  import opened Wrappers
  import opened Text
  import opened Seqs
  import opened ClientTypes
  import opened ClientDates

  // ---------------------------------------------------------------------
  // The active round and its applicants
  // ---------------------------------------------------------------------

  /** `rounds.find(r => r.isActive) || null`. */
  function ActiveRound(rs: seq<CRound>): (r: Option<CRound>)
    ensures r.None? <==> forall i :: 0 <= i < |rs| ==> !rs[i].isActive
    ensures r.Some? ==> exists i :: 0 <= i < |rs| && rs[i] == r.value && rs[i].isActive &&
                                     forall j :: 0 <= j < i ==> !rs[j].isActive
    decreases |rs|
  {
    if |rs| == 0 then None
    else if rs[0].isActive then Some(rs[0])
    else
      var r := ActiveRound(rs[1..]);
      assert forall i :: 0 < i < |rs| ==> rs[i] == rs[1..][i - 1];
      r
  }

  /** Strictly increasing in code-unit order, hence without duplicates. */
  predicate StrictlySorted(s: seq<string>) {
    forall i, j :: 0 <= i < j < |s| ==> LexLess(s[i], s[j])
  }

  /** Insert a new name into a sorted list at its place. */
  function InsertSorted(x: string, s: seq<string>): (r: seq<string>)
    requires StrictlySorted(s) && x !in s
    ensures StrictlySorted(r)
    ensures |r| == |s| + 1
    ensures forall y :: y in r <==> y == x || y in s
    decreases |s|
  {
    if |s| == 0 then [x]
    else if LexLess(x, s[0]) then
      assert forall k :: 0 < k < |s| ==> LexLess(x, s[k]) by {
        forall k | 0 < k < |s| ensures LexLess(x, s[k]) {
          LexLessTransitive(x, s[0], s[k]);
        }
      }
      [x] + s
    else
      LexLessTotal(x, s[0]);
      var tail := s[1..];
      assert StrictlySorted(tail);
      var rest := InsertSorted(x, tail);
      assert forall y :: y in tail ==> LexLess(s[0], y);
      assert forall k :: 0 <= k < |rest| ==> LexLess(s[0], rest[k]) by {
        forall k | 0 <= k < |rest| ensures LexLess(s[0], rest[k]) {
          assert rest[k] in rest;
        }
      }
      assert forall y :: y in s <==> y == s[0] || y in tail;
      [s[0]] + rest
  }

  /** `names.sort()` for names without duplicates: the same names in
      increasing code-unit order. */
  function SortNames(s: seq<string>): (r: seq<string>)
    requires NoDup(s)
    ensures StrictlySorted(r)
    ensures |r| == |s|
    ensures forall y :: y in r <==> y in s
    decreases |s|
  {
    if |s| == 0 then []
    else
      var front := s[..|s| - 1];
      var last := s[|s| - 1];
      assert NoDup(front);
      assert last !in front;
      assert s == front + [last];
      InsertSorted(last, SortNames(front))
  }

  /** The user names of the applications on round `id`. */
  function UserNamesOn(apps: seq<CApp>, id: int): (names: seq<string>)
    ensures forall u :: u in names <==> exists a :: a in apps && OnRound(a, id) && a.userName == u
    decreases |apps|
  {
    if |apps| == 0 then []
    else
      var rest := UserNamesOn(apps[1..], id);
      assert forall a :: a in apps <==> a == apps[0] || a in apps[1..];
      (if OnRound(apps[0], id) then [apps[0].userName] else []) + rest
  }

  /** `activeRoundUsernames`: who applied to the active round, each name
      once, in increasing order; nobody when no round is active. */
  function ActiveRoundUsernames(rs: seq<CRound>, apps: seq<CApp>): (names: seq<string>)
    ensures StrictlySorted(names)
    ensures ActiveRound(rs).None? ==> names == []
    ensures ActiveRound(rs).Some? ==> forall u :: u in names <==>
      exists a :: a in apps && OnRound(a, ActiveRound(rs).value.id) && a.userName == u
  {
    match ActiveRound(rs)
    case None => []
    case Some(r) => SortNames(Dedup(UserNamesOn(apps, r.id)))
  }

  /** A strictly sorted list is determined by its members, so the applicant
      list depends only on who applied, not on the order of applications. */
  lemma {:induction false} StrictlySortedUnique(a: seq<string>, b: seq<string>)
    requires StrictlySorted(a) && StrictlySorted(b)
    requires forall y :: y in a <==> y in b
    ensures a == b
    decreases |a|
  {
    if |a| > 0 && |b| > 0 {
      forall k | 0 < k < |b| ensures LexLess(b[0], b[k]) {}
      if a[0] != b[0] {
        assert a[0] in b && b[0] in a;
        var i :| 0 <= i < |b| && b[i] == a[0];
        var j :| 0 <= j < |a| && a[j] == b[0];
        LexLessAsymmetric(b[0], a[0]);
      }
      assert forall y :: y in a[1..] <==> y in a && y != a[0] by {
        forall y ensures y in a[1..] <==> y in a && y != a[0] {
          if y in a && y != a[0] {
            var i :| 0 <= i < |a| && a[i] == y;
            assert a[1..][i - 1] == y;
          }
          if y in a[1..] {
            var i :| 0 <= i < |a[1..]| && a[1..][i] == y;
            LexLessIrreflexive(a[0]);
            assert LexLess(a[0], a[i + 1]);
          }
        }
      }
      assert forall y :: y in b[1..] <==> y in b && y != b[0] by {
        forall y ensures y in b[1..] <==> y in b && y != b[0] {
          if y in b && y != b[0] {
            var i :| 0 <= i < |b| && b[i] == y;
            assert b[1..][i - 1] == y;
          }
          if y in b[1..] {
            var i :| 0 <= i < |b[1..]| && b[1..][i] == y;
            LexLessIrreflexive(b[0]);
            assert LexLess(b[0], b[i + 1]);
          }
        }
      }
      StrictlySortedUnique(a[1..], b[1..]);
      assert a == [a[0]] + a[1..] && b == [b[0]] + b[1..];
    } else if |a| > 0 {
      HeadIsMember(a);
      assert false;
    } else if |b| > 0 {
      HeadIsMember(b);
      assert false;
    }
  }

  lemma HeadIsMember(s: seq<string>)
    requires |s| > 0
    ensures s[0] in s
  {
  }

  /** The applicant list for the same rounds and the same set of
      (round, name) pairs is the same list. */
  lemma ActiveRoundUsernamesOrderFree(rs: seq<CRound>, apps1: seq<CApp>, apps2: seq<CApp>)
    requires forall a :: a in apps1 ==> a in apps2
    requires forall a :: a in apps2 ==> a in apps1
    ensures ActiveRoundUsernames(rs, apps1) == ActiveRoundUsernames(rs, apps2)
  {
    StrictlySortedUnique(ActiveRoundUsernames(rs, apps1), ActiveRoundUsernames(rs, apps2));
  }

  /** `currentUserEliminated`: a logged-in user whose name is on the list. */
  predicate CurrentUserEliminated(viewer: Option<User>, eliminated: seq<string>) {
    viewer.Some? && viewer.value.username != "" && viewer.value.username in eliminated
  }

  // ---------------------------------------------------------------------
  // Selecting applicants and saving the elimination
  // ---------------------------------------------------------------------

  /** The selection to eliminate, in the order its names were added (a
      `Set`'s iteration order), and the list already eliminated. */
  datatype EliminationState = EliminationState(eliminated: seq<string>, selected: seq<string>)

  /** `toggleSelect(u)`: remove `u` when selected, otherwise add it last. */
  function Toggle(sel: seq<string>, u: string): (r: seq<string>)
    requires NoDup(sel)
    ensures NoDup(r)
    ensures u in r <==> u !in sel
    ensures forall v :: v != u ==> (v in r <==> v in sel)
  {
    if u in sel then
      var r := Filter(sel, v => v != u);
      FilterIsSubsequence(sel, v => v != u);
      SubsequenceNoDup(r, sel);
      r
    else
      assert forall i :: 0 <= i < |sel| ==> sel[i] != u;
      sel + [u]
  }

  /** A subsequence of a duplicate-free sequence is duplicate-free. */
  lemma {:induction false} SubsequenceNoDup(a: seq<string>, b: seq<string>)
    requires IsSubsequence(a, b) && NoDup(b)
    ensures NoDup(a)
    decreases |b|
  {
    if |a| > 0 && |b| > 0 {
      assert NoDup(b[1..]);
      if a[0] == b[0] && IsSubsequence(a[1..], b[1..]) {
        SubsequenceNoDup(a[1..], b[1..]);
        SubsequenceMembers(a[1..], b[1..]);
        assert b[0] !in b[1..];
        forall i, j | 0 <= i < j < |a| ensures a[i] != a[j] {
          if i == 0 {
            assert a[j] == a[1..][j - 1];
          } else {
            assert a[i] == a[1..][i - 1] && a[j] == a[1..][j - 1];
          }
        }
      } else {
        SubsequenceNoDup(a, b[1..]);
      }
    }
  }

  lemma {:induction false} SubsequenceMembers(a: seq<string>, b: seq<string>)
    requires IsSubsequence(a, b)
    ensures forall y :: y in a ==> y in b
    decreases |b|
  {
    if |a| > 0 && |b| > 0 {
      if a[0] == b[0] && IsSubsequence(a[1..], b[1..]) {
        SubsequenceMembers(a[1..], b[1..]);
        assert forall y :: y in a ==> y == a[0] || y in a[1..];
      } else {
        SubsequenceMembers(a, b[1..]);
      }
    }
  }

  /** Toggling twice restores who is selected; a name that was not selected
      leaves the selection exactly as it was, while a selected name comes
      back at the end. */
  lemma ToggleTwice(sel: seq<string>, u: string)
    requires NoDup(sel)
    ensures forall v :: v in Toggle(Toggle(sel, u), u) <==> v in sel
    ensures u !in sel ==> Toggle(Toggle(sel, u), u) == sel
    ensures u in sel ==> Toggle(Toggle(sel, u), u) == Filter(sel, v => v != u) + [u]
  {
    if u !in sel {
      var once := sel + [u];
      assert once[..|sel|] == sel;
      FilterAll(sel, v => v != u);
      FilterAppendDropped(sel, u);
    }
  }

  /** Dropping a name that was appended to a list without it gives the list. */
  lemma FilterAppendDropped(sel: seq<string>, u: string)
    requires u !in sel
    ensures Filter(sel + [u], v => v != u) == sel
  {
    FilterConcat(sel, [u], v => v != u);
    FilterAll(sel, v => v != u);
  }

  lemma {:induction false} FilterConcat(a: seq<string>, b: seq<string>, p: string -> bool)
    ensures Filter(a + b, p) == Filter(a, p) + Filter(b, p)
    decreases |a|
  {
    if |a| > 0 {
      assert (a + b)[1..] == a[1..] + b;
      FilterConcat(a[1..], b, p);
    } else {
      assert a + b == b;
    }
  }

  /** `saveElimination`'s list: the names already eliminated first, then
      the selected ones, each name once. */
  function EliminationUnion(eliminated: seq<string>, selected: seq<string>): (r: seq<string>)
    ensures NoDup(r)
    ensures forall u :: u in r <==> u in eliminated || u in selected
    ensures Dedup(eliminated) <= r
    ensures NoDup(eliminated) ==> eliminated <= r
  {
    DedupPrefix(eliminated, selected);
    if NoDup(eliminated) then DedupNoDup(eliminated); Dedup(eliminated + selected)
    else Dedup(eliminated + selected)
  }

  /** `saveElimination`: the list that is sent, and the state after the
      request. On success the list becomes the eliminated list and the
      selection is cleared; on failure nothing changes. */
  function SaveElimination(st: EliminationState, succeeded: bool): (r: (seq<string>, EliminationState))
    ensures r.0 == EliminationUnion(st.eliminated, st.selected)
    ensures succeeded ==> r.1 == EliminationState(r.0, [])
    ensures !succeeded ==> r.1 == st
  {
    var sent := EliminationUnion(st.eliminated, st.selected);
    (sent, if succeeded then EliminationState(sent, []) else st)
  }

  /** Saving an empty selection sends the (duplicate-free) eliminated list
      unchanged, and saving again after a success sends the same list. */
  lemma SaveEliminationStable(st: EliminationState)
    requires NoDup(st.eliminated)
    ensures st.selected == [] ==> SaveElimination(st, true).0 == st.eliminated
    ensures var after := SaveElimination(st, true).1;
      SaveElimination(after, true).0 == after.eliminated
  {
    assert st.eliminated + [] == st.eliminated;
    DedupNoDup(st.eliminated);
    var after := SaveElimination(st, true).1;
    assert after.eliminated + [] == after.eliminated;
    DedupNoDup(after.eliminated);
  }

  // ---------------------------------------------------------------------
  // Review points and the local review update
  // ---------------------------------------------------------------------

  /** `handleReviewPointsChange`'s value: `null` for an empty field,
      otherwise `Math.max(0, Math.min(10, Number(s)))`, which stays `NaN`
      for text that is not a number. */
  function ClampPoints(s: string): (p: JsPoints)
    ensures p.NullPoints? <==> s == ""
    ensures p.NaNPoints? <==> s != "" && JsNumber(s).None?
    ensures p.Points? ==> 0 <= p.n <= 10
    ensures p.Points? && JsNumber(s).value <= 0 ==> p.n == 0
    ensures p.Points? && JsNumber(s).value >= 10 ==> p.n == 10
    ensures p.Points? && 0 <= JsNumber(s).value <= 10 ==> p.n == JsNumber(s).value
  {
    if s == "" then NullPoints
    else match JsNumber(s)
      case None => NaNPoints
      case Some(n) => Points(if n < 0 then 0 else if n > 10 then 10 else n)
  }

  /** Typing a score the server accepts shows that score. */
  lemma ClampPointsKeepsValidScore(n: int)
    requires 0 <= n <= 10
    ensures ClampPoints(IntToString(n)) == Points(n)
  {
    JsNumberOfIntToString(n);
  }

  /** Replace the application with id `id` by `f` of it, keeping the rest. */
  function UpdateApp(apps: seq<CApp>, id: int, f: CApp -> CApp): (r: seq<CApp>)
    ensures |r| == |apps|
    ensures forall i :: 0 <= i < |apps| ==> r[i] == if apps[i].id == Some(id) then f(apps[i]) else apps[i]
  {
    seq(|apps|, i requires 0 <= i < |apps| => if apps[i].id == Some(id) then f(apps[i]) else apps[i])
  }

  /** `handleReviewPointsChange(id, s)`. */
  function PointsChanged(apps: seq<CApp>, id: int, s: string): (r: seq<CApp>)
    ensures |r| == |apps|
    ensures forall i :: 0 <= i < |apps| && apps[i].id != Some(id) ==> r[i] == apps[i]
    ensures forall i :: 0 <= i < |apps| && apps[i].id == Some(id) ==> r[i] == apps[i].(reviewPoints := ClampPoints(s))
  {
    UpdateApp(apps, id, (a: CApp) => a.(reviewPoints := ClampPoints(s)))
  }

  /** `handleSaveReview`'s local update after the server accepted the
      review: the application with that id takes the text (a `null` text
      becomes absent) and the points; every other application is kept. */
  function LocalReviewUpdate(apps: seq<CApp>, id: int, text: Option<string>, points: JsPoints): (r: seq<CApp>)
    ensures |r| == |apps|
    ensures forall i :: 0 <= i < |apps| && apps[i].id != Some(id) ==> r[i] == apps[i]
    ensures forall i :: 0 <= i < |apps| && apps[i].id == Some(id) ==>
      r[i] == apps[i].(reviewText := text, reviewPoints := points)
  {
    UpdateApp(apps, id, (a: CApp) => a.(reviewText := text, reviewPoints := points))
  }

  /** Saving the same review twice leaves the list as saving it once. */
  lemma LocalReviewUpdateIdempotent(apps: seq<CApp>, id: int, text: Option<string>, points: JsPoints)
    ensures LocalReviewUpdate(LocalReviewUpdate(apps, id, text, points), id, text, points)
         == LocalReviewUpdate(apps, id, text, points)
  {
  }

  // ---------------------------------------------------------------------
  // Saving an edited task
  // ---------------------------------------------------------------------

  /** The body `handleSave` sends. `applicationDeadline` is absent (`None`)
      unless the task has no rounds. */
  datatype TaskUpdateBody = TaskUpdateBody(
    title: string,
    description: string,
    rounds: seq<CRound>,
    applicationDeadline: Option<string>)

  /** A round as `handleSave` cleans it: no applications, and the deadline
      cut to its date part. */
  function CleanRound(r: CRound): (c: CRound)
    ensures c.id == r.id && c.description == r.description && c.isActive == r.isActive
    ensures c.applications == [] && |c.deadline| <= 10 && c.deadline <= r.deadline
  {
    r.(applications := [], deadline := Prefix(r.deadline, 10))
  }

  /** `handleSave`'s body. */
  function SaveBody(title: string, description: string, rounds: seq<CRound>, date: string): (b: TaskUpdateBody)
    ensures b.title == title && b.description == description
    ensures |b.rounds| == |rounds|
    ensures forall i :: 0 <= i < |rounds| ==> b.rounds[i] == CleanRound(rounds[i])
    ensures b.applicationDeadline.Some? <==> |rounds| == 0
    ensures b.applicationDeadline.Some? ==> |b.applicationDeadline.value| <= 10 && b.applicationDeadline.value <= date
  {
    var cleaned := seq(|rounds|, i requires 0 <= i < |rounds| => CleanRound(rounds[i]));
    TaskUpdateBody(title, description, cleaned, if |cleaned| == 0 then Some(Prefix(date, 10)) else None)
  }

  /** Cleaning is idempotent: saving what was sent sends it again. */
  lemma SaveBodyIdempotent(title: string, description: string, rounds: seq<CRound>, date: string)
    ensures var b := SaveBody(title, description, rounds, date);
      SaveBody(title, description, b.rounds, b.applicationDeadline.GetOr(date)) == b
  {
    var b := SaveBody(title, description, rounds, date);
    var again := SaveBody(title, description, b.rounds, b.applicationDeadline.GetOr(date));
    assert again.rounds == b.rounds;
  }

  // ---------------------------------------------------------------------
  // The activation action
  // ---------------------------------------------------------------------

  /** The "Activate Next Round" button: shown to the creator (`editable`)
      outside edit mode when a round is active and its deadline is before
      today. */
  function ActivateOffered(editable: bool, editing: bool, rs: seq<CRound>, today: int): (b: bool)
    ensures b <==> editable && !editing && ActiveRound(rs).Some? && IsBeforeToday(ActiveRound(rs).value.deadline, today)
    ensures b ==> IsoDate(ActiveRound(rs).value.deadline)
  {
    editable && !editing && match ActiveRound(rs)
      case None => false
      case Some(r) => IsBeforeToday(r.deadline, today)
  }
}
