/** What the applicant's view of a task (`TaskApplicantView.tsx`) shows
    for each round: whether the user has submitted to it, the review they
    received, and the upload form. */
module ApplicantView {
  import opened Wrappers
  import opened Entities
  import opened ClientTypes

  /** `app.keycloakUserId === user?.id && app.round?.id === roundId`. */
  predicate MineOnRound(a: CApp, viewer: Option<User>, roundId: int) {
    IsUserId(viewer, a.userId) && OnRound(a, roundId)
  }

  /** `userApplicationForRound`: the first of the user's applications on
      the round. */
  function UserApplicationForRound(apps: seq<CApp>, viewer: Option<User>, roundId: int): (r: Option<CApp>)
    ensures r.None? <==> forall i :: 0 <= i < |apps| ==> !MineOnRound(apps[i], viewer, roundId)
    ensures r.Some? ==> exists i :: 0 <= i < |apps| && apps[i] == r.value && MineOnRound(apps[i], viewer, roundId) &&
                                      forall j :: 0 <= j < i ==> !MineOnRound(apps[j], viewer, roundId)
    decreases |apps|
  {
    if |apps| == 0 then None
    else if MineOnRound(apps[0], viewer, roundId) then Some(apps[0])
    else
      assert forall i :: 0 < i < |apps| ==> apps[i] == apps[1..][i - 1];
      UserApplicationForRound(apps[1..], viewer, roundId)
  }

  /** `hasAppliedToThisRound`. */
  predicate HasApplied(apps: seq<CApp>, viewer: Option<User>, roundId: int) {
    exists i :: 0 <= i < |apps| && MineOnRound(apps[i], viewer, roundId)
  }

  /** The review box of a submitted round: the text when the task reviews
      with text and it is non-empty, the points when it reviews with points
      and they are set. */
  datatype ReviewBox = ReviewBox(text: Option<string>, points: JsPoints)

  predicate ShowsText(et: Option<EvaluationType>) {
    et == Some(TEXT) || et == Some(BOTH)
  }

  predicate ShowsPoints(et: Option<EvaluationType>) {
    et == Some(POINTS) || et == Some(BOTH)
  }

  /** The review box of an application, when it has anything to show. */
  function ReviewBoxOf(a: CApp, et: Option<EvaluationType>): (b: Option<ReviewBox>)
    ensures b.Some? <==> Truthy(a.reviewText) || HasPoints(a.reviewPoints)
    ensures b.Some? ==> (b.value.text.Some? <==> ShowsText(et) && Truthy(a.reviewText))
    ensures b.Some? && b.value.text.Some? ==> b.value.text == a.reviewText
    ensures b.Some? ==> (HasPoints(b.value.points) <==> ShowsPoints(et) && HasPoints(a.reviewPoints))
    ensures b.Some? && HasPoints(b.value.points) ==> b.value.points == a.reviewPoints
  {
    if Truthy(a.reviewText) || HasPoints(a.reviewPoints) then
      Some(ReviewBox(
        if ShowsText(et) && Truthy(a.reviewText) then a.reviewText else None,
        if ShowsPoints(et) then a.reviewPoints else NullPoints))
    else None
  }

  /** One round's card. `submitted` carries the review box (if any) of the
      user's application; `upload` carries whether the submit button is
      enabled. */
  datatype RoundCard = RoundCard(
    roundId: int,
    active: bool,
    submitted: Option<Option<ReviewBox>>,
    upload: Option<bool>)

  /** The card of round `r`. `chosen` holds the ids of the rounds the user
      has picked a file for. */
  function Card(r: CRound, apps: seq<CApp>, viewer: Option<User>, eliminated: bool,
                et: Option<EvaluationType>, chosen: set<int>): (c: RoundCard)
    ensures c.roundId == r.id && c.active == r.isActive
    ensures c.submitted.Some? <==> HasApplied(apps, viewer, r.id)
    ensures c.upload.Some? <==> !HasApplied(apps, viewer, r.id) && r.isActive && !eliminated
    ensures c.upload.Some? ==> (c.upload.value <==> r.id in chosen)
    ensures c.submitted.Some? ==> exists a :: a in apps && MineOnRound(a, viewer, r.id) && c.submitted.value == ReviewBoxOf(a, et)
  {
    var mine := UserApplicationForRound(apps, viewer, r.id);
    RoundCard(
      r.id,
      r.isActive,
      if mine.Some? then Some(ReviewBoxOf(mine.value, et)) else None,
      if mine.None? && r.isActive && !eliminated then Some(r.id in chosen) else None)
  }

  /** The whole view: nothing when the task has no rounds, otherwise the
      elimination notice and one card per round, in order. */
  datatype View = View(eliminatedNotice: bool, cards: seq<RoundCard>)

  function ApplicantViewOf(rs: seq<CRound>, apps: seq<CApp>, viewer: Option<User>, eliminated: bool,
                           et: Option<EvaluationType>, chosen: set<int>): (v: Option<View>)
    ensures v.None? <==> |rs| == 0
    ensures v.Some? ==> v.value.eliminatedNotice == eliminated && |v.value.cards| == |rs|
    ensures v.Some? ==> forall i :: 0 <= i < |rs| ==> v.value.cards[i] == Card(rs[i], apps, viewer, eliminated, et, chosen)
  {
    if |rs| == 0 then None
    else Some(View(eliminated, seq(|rs|, i requires 0 <= i < |rs| => Card(rs[i], apps, viewer, eliminated, et, chosen))))
  }

  /** No round ever shows both the submission and the upload form, and an
      eliminated user is offered no upload anywhere. */
  lemma CardsExclusive(rs: seq<CRound>, apps: seq<CApp>, viewer: Option<User>, eliminated: bool,
                       et: Option<EvaluationType>, chosen: set<int>)
    requires |rs| > 0
    ensures var v := ApplicantViewOf(rs, apps, viewer, eliminated, et, chosen).value;
      forall i :: 0 <= i < |v.cards| ==>
        && !(v.cards[i].submitted.Some? && v.cards[i].upload.Some?)
        && (eliminated ==> v.cards[i].upload.None?)
        && (!v.cards[i].active ==> v.cards[i].upload.None?)
  {
  }

  /** Once the user's application on the round appears, the upload form is
      gone and the submission shows instead. */
  lemma SubmittingHidesUpload(r: CRound, apps: seq<CApp>, a: CApp, viewer: Option<User>, eliminated: bool,
                              et: Option<EvaluationType>, chosen: set<int>)
    requires MineOnRound(a, viewer, r.id)
    ensures Card(r, apps + [a], viewer, eliminated, et, chosen).upload.None?
    ensures Card(r, apps + [a], viewer, eliminated, et, chosen).submitted.Some?
  {
    assert (apps + [a])[|apps|] == a;
  }
}
