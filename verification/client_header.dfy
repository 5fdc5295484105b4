/** The header's notification bell (`AppHeader.tsx`): the four lists it
    fetches and merges, the badge on the bell, and what clicking an entry
    does. */
module AppHeader {
  import opened Wrappers
  import opened Text
  import opened ClientDates

  datatype Kind = NewApplication | NewReview | Elimination | RoundActivated

  /** One dropdown entry. */
  datatype Notification = Notification(taskId: int, taskTitle: string, count: int, kind: Kind)

  /** A row of the creator's or the reviewed applicant's endpoint, which
      always carries a count. */
  datatype CountedRow = CountedRow(taskId: int, taskTitle: string, count: int)

  /** A row of the elimination or the round-activation endpoint, whose
      `newApplicationsCount` the client reads with `?? 1`, allowing it to be
      absent. The server always sends one: the elimination rows carry the
      count of matching applications, the round-activation rows carry 1. */
  datatype LooseRow = LooseRow(taskId: int, taskTitle: string, count: Option<int>)

  /** The text appended to the task title of each kind of entry. */
  function Suffix(k: Kind): string {
    match k
    case NewApplication => " (Új jelentkezők)"
    case NewReview => " (Új bírálatok)"
    case Elimination => " (Eliminálva)"
    case RoundActivated => " (Új forduló nyílt)"
  }

  /** The creator and review rows, tagged with their kind. */
  function FromCounted(rows: seq<CountedRow>, k: Kind): (ns: seq<Notification>)
    ensures |ns| == |rows|
    ensures forall i :: 0 <= i < |rows| ==>
      ns[i].taskId == rows[i].taskId && ns[i].kind == k && ns[i].count == rows[i].count && ns[i].taskTitle == rows[i].taskTitle + Suffix(k)
  {
    seq(|rows|, i requires 0 <= i < |rows| => Notification(rows[i].taskId, rows[i].taskTitle + Suffix(k), rows[i].count, k))
  }

  /** The elimination and round rows, tagged with their kind; a missing
      count counts as one (`?? 1`). */
  function FromLoose(rows: seq<LooseRow>, k: Kind): (ns: seq<Notification>)
    ensures |ns| == |rows|
    ensures forall i :: 0 <= i < |rows| ==>
      ns[i].taskId == rows[i].taskId && ns[i].kind == k && ns[i].taskTitle == rows[i].taskTitle + Suffix(k)
    ensures forall i :: 0 <= i < |rows| ==> ns[i].count == if rows[i].count.Some? then rows[i].count.value else 1
  {
    seq(|rows|, i requires 0 <= i < |rows| => Notification(rows[i].taskId, rows[i].taskTitle + Suffix(k), rows[i].count.GetOr(1), k))
  }

  /** The four endpoints' answers, or `None` when any request or body
      failed. */
  datatype Responses = Responses(
    creator: seq<CountedRow>,
    review: seq<CountedRow>,
    elimination: seq<LooseRow>,
    round: seq<LooseRow>)

  /** The position of a kind in the merged list. */
  function Rank(k: Kind): nat {
    match k
    case NewApplication => 0
    case NewReview => 1
    case Elimination => 2
    case RoundActivated => 3
  }

  /** `fetchNotifications`: nothing for an anonymous user, a user without a
      name, or a failed fetch; otherwise the creator's entries, then the
      review entries, then eliminations, then round openings. */
  function FetchNotifications(authenticated: bool, username: Option<string>, resp: Option<Responses>): (ns: seq<Notification>)
    ensures !authenticated || username.None? || username.value == "" || resp.None? ==> ns == []
    ensures authenticated && username.Some? && username.value != "" && resp.Some? ==>
      |ns| == |resp.value.creator| + |resp.value.review| + |resp.value.elimination| + |resp.value.round|
    ensures forall i, j :: 0 <= i < j < |ns| ==> Rank(ns[i].kind) <= Rank(ns[j].kind)
  {
    if !authenticated || username.None? || username.value == "" || resp.None? then []
    else
      var r := resp.value;
      var a := FromCounted(r.creator, NewApplication);
      var b := FromCounted(r.review, NewReview);
      var c := FromLoose(r.elimination, Elimination);
      var d := FromLoose(r.round, RoundActivated);
      var ns := a + b + c + d;
      assert forall i :: 0 <= i < |ns| ==>
        Rank(ns[i].kind) == if i < |a| then 0 else if i < |a| + |b| then 1 else if i < |a| + |b| + |c| then 2 else 3;
      ns
  }

  /** A shorter suffix never ends a longer one. */
  lemma SuffixesUnrelated(k1: Kind, k2: Kind)
    requires |Suffix(k1)| < |Suffix(k2)|
    ensures Suffix(k2)[|Suffix(k2)| - |Suffix(k1)|..] != Suffix(k1)
  {
    var s1, s2 := Suffix(k1), Suffix(k2);
    assert s1[2] != s2[|s2| - |s1| + 2];
  }

  /** Each entry's title names its kind: the shown text determines both
      the task title and the kind. */
  lemma {:induction false} TitleDetermines(t1: string, k1: Kind, t2: string, k2: Kind)
    requires t1 + Suffix(k1) == t2 + Suffix(k2)
    ensures t1 == t2 && k1 == k2
  {
    var s1, s2 := Suffix(k1), Suffix(k2);
    var w := t1 + s1;
    assert w[|w| - |s1|..] == s1;
    assert w[|w| - |s2|..] == s2;
    if |s1| < |s2| {
      SuffixesUnrelated(k1, k2);
      assert false;
    } else if |s1| > |s2| {
      SuffixesUnrelated(k2, k1);
      assert false;
    }
    assert |t1| == |t2|;
    assert t1 == w[..|t1|] && t2 == w[..|t2|];
  }

  /** `totalNewCount`: the sum of the entries' counts. */
  function Total(ns: seq<Notification>): int
    decreases |ns|
  {
    if |ns| == 0 then 0 else ns[0].count + Total(ns[1..])
  }

  lemma {:induction false} TotalConcat(a: seq<Notification>, b: seq<Notification>)
    ensures Total(a + b) == Total(a) + Total(b)
    decreases |a|
  {
    if |a| == 0 {
      assert a + b == b;
    } else {
      assert (a + b)[1..] == a[1..] + b;
      TotalConcat(a[1..], b);
    }
  }

  function CountedSum(rows: seq<CountedRow>): int
    decreases |rows|
  {
    if |rows| == 0 then 0 else rows[0].count + CountedSum(rows[1..])
  }

  /** The counts of loose rows, one for each row without a count. */
  function LooseSum(rows: seq<LooseRow>): int
    decreases |rows|
  {
    if |rows| == 0 then 0 else rows[0].count.GetOr(1) + LooseSum(rows[1..])
  }

  lemma {:induction false} TotalFromCounted(rows: seq<CountedRow>, k: Kind)
    ensures Total(FromCounted(rows, k)) == CountedSum(rows)
    decreases |rows|
  {
    if |rows| > 0 {
      assert FromCounted(rows, k)[1..] == FromCounted(rows[1..], k);
      TotalFromCounted(rows[1..], k);
    }
  }

  lemma {:induction false} TotalFromLoose(rows: seq<LooseRow>, k: Kind)
    ensures Total(FromLoose(rows, k)) == LooseSum(rows)
    decreases |rows|
  {
    if |rows| > 0 {
      assert FromLoose(rows, k)[1..] == FromLoose(rows[1..], k);
      TotalFromLoose(rows[1..], k);
    }
  }

  /** The number on the bell is the sum over the four endpoints, each
      countless elimination or round row counting one. */
  lemma FetchTotal(username: string, r: Responses)
    requires username != ""
    ensures Total(FetchNotifications(true, Some(username), Some(r))) ==
      CountedSum(r.creator) + CountedSum(r.review) + LooseSum(r.elimination) + LooseSum(r.round)
  {
    var a := FromCounted(r.creator, NewApplication);
    var b := FromCounted(r.review, NewReview);
    var c := FromLoose(r.elimination, Elimination);
    var d := FromLoose(r.round, RoundActivated);
    TotalConcat(a + b + c, d);
    TotalConcat(a + b, c);
    TotalConcat(a, b);
    TotalFromCounted(r.creator, NewApplication);
    TotalFromCounted(r.review, NewReview);
    TotalFromLoose(r.elimination, Elimination);
    TotalFromLoose(r.round, RoundActivated);
  }

  /** Rows without a count add one each. */
  lemma {:induction false} CountlessRowsCountOne(rows: seq<LooseRow>)
    requires forall i :: 0 <= i < |rows| ==> rows[i].count.None?
    ensures LooseSum(rows) == |rows|
    decreases |rows|
  {
    if |rows| > 0 {
      CountlessRowsCountOne(rows[1..]);
    }
  }

  /** The badge on the bell: none unless the total is positive, "99+" above
      ninety-nine, the number itself otherwise. */
  function Badge(total: int): (b: Option<string>)
    ensures b.None? <==> total <= 0
    ensures b == Some("99+") <==> total > 99
    ensures 0 < total <= 99 ==> b.Some? && JsNumber(b.value) == Some(total)
  {
    if total <= 0 then None
    else if total > 99 then Some("99+")
    else
      var digits := IntToString(total);
      JsNumberOfIntToString(total);
      assert digits == NatToString(total);
      assert digits != "99+" by {
        if |digits| == 3 {
          assert IsDigit(digits[2]);
        }
      }
      Some(digits)
  }

  /** The request a click sends before navigating: the elimination or the
      round-activation entry is marked as seen for the user. */
  datatype Touch = TouchElimination(taskId: int, user: string) | TouchRoundActivation(taskId: int, user: string)

  datatype Click = Click(touch: Option<Touch>, path: string)

  /** `handleTaskClick`: mark the entry seen when the user has a name and
      the entry is an elimination or a round opening, then open the task. */
  function ClickEntry(n: Notification, username: Option<string>): (c: Click)
    ensures c.touch.Some? <==> username.Some? && username.value != "" && (n.kind == Elimination || n.kind == RoundActivated)
    ensures c.touch.Some? ==> c.touch.value.taskId == n.taskId && c.touch.value.user == username.value
    ensures c.touch.Some? ==> (c.touch.value.TouchElimination? <==> n.kind == Elimination)
    ensures |c.path| > 7 && c.path[..7] == "/apply/" && c.path[7..] == IntToString(n.taskId)
  {
    var path := "/apply/" + IntToString(n.taskId);
    if username.Some? && username.value != "" then
      match n.kind
      case Elimination => Click(Some(TouchElimination(n.taskId, username.value)), path)
      case RoundActivated => Click(Some(TouchRoundActivation(n.taskId, username.value)), path)
      case _ => Click(None, path)
    else Click(None, path)
  }

  /** Entries of different tasks open different pages. */
  lemma ClickOpensItsTask(n1: Notification, n2: Notification, u1: Option<string>, u2: Option<string>)
    requires ClickEntry(n1, u1).path == ClickEntry(n2, u2).path
    ensures n1.taskId == n2.taskId
  {
    IntToStringInjective(n1.taskId, n2.taskId);
  }
}
