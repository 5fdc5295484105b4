/** The applicant side of the backend: submitting a file, reviewing a
    submission, and the watermarks behind the applicant's notifications.
    The controller endpoints repeat the service with fewer checks: the
    controller upload has no active-round check, its per-round upload has no
    active-round check either, and its review never records when the review
    was written. Each pair shares one core with the difference as a
    parameter. File contents are not modelled: a file is its original name
    and size, and whether writing it fails is a parameter. */
module ApplicationService {
  import opened Wrappers
  import opened Entities
  import opened Text
  import opened RoundOrder
  import opened TaskService
  import opened ApplicationRepository

  /** An uploaded multipart file. */
  datatype Upload = Upload(originalName: string, size: nat)

  /** What a request sees of the outside world: today's date, the current
      time, the upload directory, and whether writing a file fails. */
  datatype Env = Env(today: Day, now: Instant, uploadDir: string, storageFails: bool)

  /** The answer to an upload and the path of the file written to disk, if any. */
  datatype UploadOutcome = UploadOutcome(response: Response<Db>, storedFile: Option<string>)

  /** `file == null || file.isEmpty()`. */
  predicate NoFile(file: Option<Upload>) {
    file.None? || file.value.size == 0
  }

  /** The first round of a list with the given id (`stream().filter(..).findFirst()`). */
  function FindRound(rs: seq<Round>, rid: RoundId): (r: Option<Round>)
    ensures r.Some? ==> r.value in rs && r.value.id == rid
    ensures r.None? <==> forall j :: 0 <= j < |rs| ==> rs[j].id != rid
    ensures r.Some? ==> exists j :: 0 <= j < |rs| && rs[j] == r.value && forall i :: 0 <= i < j ==> rs[i].id != rid
  {
    if |rs| == 0 then None
    else if rs[0].id == rid then Some(rs[0])
    else
      var r := FindRound(rs[1..], rid);
      assert forall j :: 1 <= j < |rs| ==> rs[j] == rs[1..][j - 1];
      r
  }

  // ---------------------------------------------------------------------
  // handleFileUpload
  // ---------------------------------------------------------------------

  /** The part of a stored file's name that names the round: `_R` and the
      round id when a round is given, nothing otherwise. */
  function RoundTag(roundId: Option<RoundId>): string {
    if roundId.Some? then "_R" + IntToString(roundId.value) else ""
  }

  /** The stored file's name: the user name, the round tag, then `_` and
      the original name. */
  function StoredFileName(userName: string, roundId: Option<RoundId>, original: string): (s: string)
    ensures |s| > |userName| + |original|
    ensures s[..|userName|] == userName
    ensures s[|s| - |original| - 1..] == "_" + original
    ensures roundId.None? ==> s == userName + "_" + original
  {
    var s := userName + RoundTag(roundId) + "_" + original;
    assert s[|s| - |original| - 1..] == "_" + original;
    s
  }

  lemma MiddleCancels(p: string, m1: string, m2: string, q: string, o: string)
    requires p + m1 + q + o == p + m2 + q + o
    ensures m1 == m2
  {
    assert |m1| == |m2|;
    assert m1 == (p + m1 + q + o)[|p|..|p| + |m1|];
    assert m2 == (p + m2 + q + o)[|p|..|p| + |m2|];
  }

  /** One user's submissions with the same original name to different
      rounds (or to a round and to the task itself) never share a file
      name, so they never overwrite each other. */
  lemma StoredFileNamesDistinct(userName: string, r1: Option<RoundId>, r2: Option<RoundId>, original: string)
    requires r1 != r2
    ensures StoredFileName(userName, r1, original) != StoredFileName(userName, r2, original)
  {
    var t1 := RoundTag(r1);
    var t2 := RoundTag(r2);
    if StoredFileName(userName, r1, original) == StoredFileName(userName, r2, original) {
      MiddleCancels(userName, t1, t2, "_", original);
      RoundTagInjective(r1, r2);
    }
  }

  /** Names of different users can collide: "a_R1" uploading `x` to the
      task and "a" uploading `x` to round 1 both get "a_R1_x", so in the
      same task directory the later upload overwrites the earlier file
      while both applications point at it. */
  lemma StoredFileNamesCollideAcrossUsers()
    ensures StoredFileName("a_R1", None, "x") == StoredFileName("a", Some(1), "x")
  {
    assert IntToString(1) == "1";
  }

  lemma RoundTagInjective(r1: Option<RoundId>, r2: Option<RoundId>)
    requires RoundTag(r1) == RoundTag(r2)
    ensures r1 == r2
  {
    if r1.Some? || r2.Some? {
      assert r1.Some? && r2.Some?;
      assert RoundTag(r1)[2..] == IntToString(r1.value);
      assert RoundTag(r2)[2..] == IntToString(r2.value);
      IntToStringInjective(r1.value, r2.value);
    }
  }

  /** Where a task-level or round-tagged upload lands. */
  function UploadPath(env: Env, taskId: TaskId, fileName: string): string {
    env.uploadDir + IntToString(taskId) + "/" + fileName
  }

  /** The checks of an upload that depend on the stored data: the task
      exists, has not eliminated the user, and, when a round is named, the
      task has that round, its deadline is not before today, and (where the
      endpoint checks it) it is active. */
  predicate MayUpload(db: Db, today: Day, taskId: TaskId, roundId: Option<RoundId>, userName: string, checkActive: bool) {
    && taskId in db.tasks
    && userName !in db.tasks[taskId].eliminatedApplicants
    && (roundId.Some? ==>
          var found := FindRound(db.tasks[taskId].rounds, roundId.value);
          && found.Some?
          && today <= found.value.deadline
          && (checkActive ==> found.value.isActive))
  }

  /** An upload that got past the file, task and elimination checks. */
  predicate PastUserChecks(db: Db, taskId: TaskId, file: Option<Upload>, userName: string) {
    !NoFile(file) && taskId in db.tasks && userName !in db.tasks[taskId].eliminatedApplicants
  }

  /** `handleFileUpload`. The checks run in order and the first failure
      wins: no file (400), unknown task (400), eliminated user (403), round
      not in the task (400), round past its deadline (403), round inactive
      (403, service only), failed write (500). Success stores the file and
      adds exactly one application. */
  function UploadCore(db: Db, env: Env, taskId: TaskId, file: Option<Upload>, roundId: Option<RoundId>,
                      userId: string, userName: string, appId: AppId, checkActive: bool): (r: UploadOutcome)
    requires appId !in db.apps
    ensures NoFile(file) ==> r.response == Err(BadRequest, NoFileUploaded)
    ensures !NoFile(file) && taskId !in db.tasks ==> r.response == Err(BadRequest, TaskNotFound)
    ensures !NoFile(file) && taskId in db.tasks && userName in db.tasks[taskId].eliminatedApplicants ==>
      r.response == Err(Forbidden, UserEliminated)
    ensures PastUserChecks(db, taskId, file, userName) && roundId.Some? ==>
      var found := FindRound(db.tasks[taskId].rounds, roundId.value);
      && (found.None? ==> r.response == Err(BadRequest, RoundNotInTask))
      && (found.Some? && found.value.deadline < env.today ==> r.response == Err(Forbidden, RoundDeadlinePassed))
      && (found.Some? && env.today <= found.value.deadline && checkActive && !found.value.isActive ==>
            r.response == Err(Forbidden, RoundNotActive))
    ensures !NoFile(file) && MayUpload(db, env.today, taskId, roundId, userName, checkActive) && env.storageFails ==>
      r.response == Err(ServerError, UploadFailed)
    ensures r.response.Ok? <==> !NoFile(file) && !env.storageFails && MayUpload(db, env.today, taskId, roundId, userName, checkActive)
    ensures r.storedFile.Some? <==> r.response.Ok?
    ensures r.response.Ok? ==>
      var path := UploadPath(env, taskId, StoredFileName(userName, roundId, file.value.originalName));
      && r.storedFile == Some(path)
      && r.response.value == db.(apps := db.apps[appId := NewApplication(appId, taskId, roundId, userId, userName, path, env.now)])
  {
    if NoFile(file) then UploadOutcome(Err(BadRequest, NoFileUploaded), None)
    else if taskId !in db.tasks then UploadOutcome(Err(BadRequest, TaskNotFound), None)
    else
      var task := db.tasks[taskId];
      if userName in task.eliminatedApplicants then UploadOutcome(Err(Forbidden, UserEliminated), None)
      else
        var roundCheck: Option<Reason> :=
          if roundId.None? then None
          else match FindRound(task.rounds, roundId.value)
            case None => Some(RoundNotInTask)
            case Some(round) =>
              if round.deadline < env.today then Some(RoundDeadlinePassed)
              else if checkActive && !round.isActive then Some(RoundNotActive)
              else None;
        if roundCheck == Some(RoundNotInTask) then UploadOutcome(Err(BadRequest, RoundNotInTask), None)
        else if roundCheck.Some? then UploadOutcome(Err(Forbidden, roundCheck.value), None)
        else if env.storageFails then UploadOutcome(Err(ServerError, UploadFailed), None)
        else
          var path := UploadPath(env, taskId, StoredFileName(userName, roundId, file.value.originalName));
          UploadOutcome(Ok(db.(apps := db.apps[appId := NewApplication(appId, taskId, roundId, userId, userName, path, env.now)])), Some(path))
  }

  /** The service's `handleFileUpload`, which also requires a named round to be active. */
  function HandleFileUpload(db: Db, env: Env, taskId: TaskId, file: Option<Upload>, roundId: Option<RoundId>,
                            userId: string, userName: string, appId: AppId): UploadOutcome
    requires appId !in db.apps
  {
    UploadCore(db, env, taskId, file, roundId, userId, userName, appId, true)
  }

  /** The controller's `handleFileUpload`, which has no active-round check. */
  function ControllerHandleFileUpload(db: Db, env: Env, taskId: TaskId, file: Option<Upload>, roundId: Option<RoundId>,
                                      userId: string, userName: string, appId: AppId): UploadOutcome
    requires appId !in db.apps
  {
    UploadCore(db, env, taskId, file, roundId, userId, userName, appId, false)
  }

  /** An eliminated user is refused with 403 before any round is looked at,
      by both endpoints, whether or not a round is named, and nothing is
      stored. */
  lemma EliminatedUserRefused(db: Db, env: Env, taskId: TaskId, file: Option<Upload>, roundId: Option<RoundId>,
                              userId: string, userName: string, appId: AppId)
    requires appId !in db.apps
    requires !NoFile(file) && taskId in db.tasks && userName in db.tasks[taskId].eliminatedApplicants
    ensures HandleFileUpload(db, env, taskId, file, roundId, userId, userName, appId) == UploadOutcome(Err(Forbidden, UserEliminated), None)
    ensures ControllerHandleFileUpload(db, env, taskId, file, roundId, userId, userName, appId) == UploadOutcome(Err(Forbidden, UserEliminated), None)
  {
  }

  /** The controller accepts every upload the service accepts, with the
      same result, and the only uploads it accepts beyond those name an
      inactive round. */
  lemma ControllerUploadAcceptsMore(db: Db, env: Env, taskId: TaskId, file: Option<Upload>, roundId: Option<RoundId>,
                                    userId: string, userName: string, appId: AppId)
    requires appId !in db.apps
    ensures var s := HandleFileUpload(db, env, taskId, file, roundId, userId, userName, appId);
      var c := ControllerHandleFileUpload(db, env, taskId, file, roundId, userId, userName, appId);
      && (s.response.Ok? ==> c == s)
      && (c.response.Ok? && s.response.Err? ==>
            && s.response == Err(Forbidden, RoundNotActive)
            && roundId.Some?
            && !FindRound(db.tasks[taskId].rounds, roundId.value).value.isActive)
  {
  }

  /** There is no duplicate-submission check: an upload that succeeded
      succeeds again, under a fresh id, and both applications are kept. */
  lemma UploadTwiceKeepsBoth(db: Db, env: Env, taskId: TaskId, file: Option<Upload>, roundId: Option<RoundId>,
                             userId: string, userName: string, a1: AppId, a2: AppId)
    requires a1 !in db.apps && a2 !in db.apps && a1 != a2
    requires HandleFileUpload(db, env, taskId, file, roundId, userId, userName, a1).response.Ok?
    ensures var once := HandleFileUpload(db, env, taskId, file, roundId, userId, userName, a1).response.value;
      var twice := HandleFileUpload(once, env, taskId, file, roundId, userId, userName, a2).response;
      && twice.Ok?
      && twice.value.apps.Keys == db.apps.Keys + {a1, a2}
      && twice.value.apps[a1].filePath == twice.value.apps[a2].filePath
  {
  }

  // ---------------------------------------------------------------------
  // handleFileUploadForRound
  // ---------------------------------------------------------------------

  /** Where a per-round upload lands: a directory per round, and the
      original name as it is. */
  function RoundUploadPath(env: Env, taskId: TaskId, roundId: RoundId, original: string): string {
    env.uploadDir + IntToString(taskId) + "/round_" + IntToString(roundId) + "/" + original
  }

  /** `handleFileUploadForRound`. After the file check the file is written
      first (a failed write is 500), and only then are the task, the round
      and (where the endpoint checks it) the round's active flag looked at;
      a refusal at that point leaves the written file behind. There is no
      elimination and no deadline check. The application's task is the
      round's own task. */
  function UploadForRoundCore(db: Db, env: Env, taskId: TaskId, roundId: RoundId, file: Option<Upload>,
                              userId: string, userName: string, appId: AppId, checkActive: bool): (r: UploadOutcome)
    requires appId !in db.apps
    ensures NoFile(file) ==> r == UploadOutcome(Err(BadRequest, NoFileUploaded), None)
    ensures !NoFile(file) && env.storageFails ==> r == UploadOutcome(Err(ServerError, UploadFailed), None)
    ensures !NoFile(file) && !env.storageFails ==> r.storedFile == Some(RoundUploadPath(env, taskId, roundId, file.value.originalName))
    ensures !NoFile(file) && !env.storageFails && taskId !in db.tasks ==> r.response == Err(BadRequest, TaskNotFound)
    ensures !NoFile(file) && !env.storageFails && taskId in db.tasks ==>
      var found := FindRound(db.tasks[taskId].rounds, roundId);
      && (found.None? ==> r.response == Err(BadRequest, RoundNotInTask))
      && (found.Some? && checkActive && !found.value.isActive ==> r.response == Err(Forbidden, RoundNotActive))
      && (r.response.Ok? <==> found.Some? && (checkActive ==> found.value.isActive))
      && (r.response.Ok? ==>
            r.response.value == db.(apps := db.apps[appId := NewApplication(appId, found.value.taskId, Some(roundId), userId, userName,
                                                                               RoundUploadPath(env, taskId, roundId, file.value.originalName), env.now)]))
    ensures r.response.Ok? ==> !NoFile(file) && !env.storageFails && taskId in db.tasks
  {
    if NoFile(file) then UploadOutcome(Err(BadRequest, NoFileUploaded), None)
    else if env.storageFails then UploadOutcome(Err(ServerError, UploadFailed), None)
    else
      var path := RoundUploadPath(env, taskId, roundId, file.value.originalName);
      if taskId !in db.tasks then UploadOutcome(Err(BadRequest, TaskNotFound), Some(path))
      else match FindRound(db.tasks[taskId].rounds, roundId)
        case None => UploadOutcome(Err(BadRequest, RoundNotInTask), Some(path))
        case Some(round) =>
          if checkActive && !round.isActive then UploadOutcome(Err(Forbidden, RoundNotActive), Some(path))
          else UploadOutcome(Ok(db.(apps := db.apps[appId := NewApplication(appId, round.taskId, Some(roundId), userId, userName, path, env.now)])), Some(path))
  }

  /** The service's `handleFileUploadForRound`. */
  function HandleFileUploadForRound(db: Db, env: Env, taskId: TaskId, roundId: RoundId, file: Option<Upload>,
                                    userId: string, userName: string, appId: AppId): UploadOutcome
    requires appId !in db.apps
  {
    UploadForRoundCore(db, env, taskId, roundId, file, userId, userName, appId, true)
  }

  /** The controller's `handleFileUploadForRound`, which does not check that the round is active. */
  function ControllerHandleFileUploadForRound(db: Db, env: Env, taskId: TaskId, roundId: RoundId, file: Option<Upload>,
                                              userId: string, userName: string, appId: AppId): UploadOutcome
    requires appId !in db.apps
  {
    UploadForRoundCore(db, env, taskId, roundId, file, userId, userName, appId, false)
  }

  /** Whether a per-round upload is accepted depends neither on who uploads
      (eliminated or not) nor on the date: the round's deadline is never
      consulted. */
  lemma UploadForRoundIgnoresUserAndDate(db: Db, env: Env, today2: Day, taskId: TaskId, roundId: RoundId, file: Option<Upload>,
                                         userId: string, u1: string, u2: string, appId: AppId, checkActive: bool)
    requires appId !in db.apps
    ensures UploadForRoundCore(db, env, taskId, roundId, file, userId, u1, appId, checkActive).response.Ok?
        <==> UploadForRoundCore(db, env.(today := today2), taskId, roundId, file, userId, u2, appId, checkActive).response.Ok?
  {
  }

  /** Two users who send a file with the same name to the same round get
      the same stored path, so the later upload replaces the earlier file
      while both applications point at it. */
  lemma UploadForRoundSharesPath(db: Db, env: Env, taskId: TaskId, roundId: RoundId, file: Option<Upload>,
                                 u1: string, u2: string, a1: AppId, a2: AppId)
    requires a1 !in db.apps && a2 !in db.apps
    requires HandleFileUploadForRound(db, env, taskId, roundId, file, u1, u1, a1).response.Ok?
    ensures HandleFileUploadForRound(db, env, taskId, roundId, file, u2, u2, a2).response.Ok?
    ensures HandleFileUploadForRound(db, env, taskId, roundId, file, u1, u1, a1).storedFile
         == HandleFileUploadForRound(db, env, taskId, roundId, file, u2, u2, a2).storedFile
  {
  }

  /** The per-round service accepts every upload the task-level service
      accepts for the same round, though it files it under another path. */
  lemma UploadForRoundIsWeaker(db: Db, env: Env, taskId: TaskId, roundId: RoundId, file: Option<Upload>,
                               userId: string, userName: string, appId: AppId)
    requires appId !in db.apps
    requires HandleFileUpload(db, env, taskId, file, Some(roundId), userId, userName, appId).response.Ok?
    ensures HandleFileUploadForRound(db, env, taskId, roundId, file, userId, userName, appId).response.Ok?
  {
  }

  /** In a consistent database the application a per-round upload stores
      belongs to the requested task. */
  lemma UploadForRoundFilesUnderTask(db: Db, env: Env, taskId: TaskId, roundId: RoundId, file: Option<Upload>,
                                     userId: string, userName: string, appId: AppId, checkActive: bool)
    requires Consistent(db) && appId !in db.apps
    requires UploadForRoundCore(db, env, taskId, roundId, file, userId, userName, appId, checkActive).response.Ok?
    ensures UploadForRoundCore(db, env, taskId, roundId, file, userId, userName, appId, checkActive).response.value.apps[appId].taskId == taskId
  {
    var found := FindRound(db.tasks[taskId].rounds, roundId);
    assert TaskConsistent(db.tasks[taskId], taskId);
  }

  // ---------------------------------------------------------------------
  // updateReview
  // ---------------------------------------------------------------------

  /** A request body: JSON keys mapped to a string or to `null`. */
  type Body = map<string, Option<string>>

  /** `body.getOrDefault("text", body.get("review"))`: the "text" entry when
      the key is present, even when its value is null; otherwise "review". */
  function RequestText(body: Body): (r: Option<string>)
    ensures "text" in body ==> r == body["text"]
    ensures "text" !in body && "review" in body ==> r == body["review"]
    ensures "text" !in body && "review" !in body ==> r.None?
  {
    if "text" in body then body["text"] else if "review" in body then body["review"] else None
  }

  /** Reading the points: absent, null or blank means no points; otherwise
      the value must parse as a 32-bit integer, and `None` here is the
      parse failure answered with 400. */
  function ParsePoints(body: Body): (r: Option<Option<int>>)
    ensures ("points" !in body || body["points"].None? || JavaBlank(body["points"].value)) ==> r == Some(None)
    ensures r.Some? && r.value.Some? ==> "points" in body && body["points"].Some? && ParseJavaInt(body["points"].value) == r.value
    ensures r.Some? && r.value.Some? ==> IntMin <= r.value.value <= IntMax
    ensures r.None? <==> "points" in body && body["points"].Some? && !JavaBlank(body["points"].value) && ParseJavaInt(body["points"].value).None?
  {
    if "points" !in body || body["points"].None? || JavaBlank(body["points"].value) then Some(None)
    else match ParseJavaInt(body["points"].value)
      case None => None
      case Some(p) => Some(Some(p))
  }

  /** A stored review. */
  datatype Review = Review(text: Option<string>, points: Option<int>)

  /** Blank text is stored as null. */
  function KeepText(text: Option<string>): (r: Option<string>)
    ensures r.Some? ==> r == text && !JavaBlank(r.value)
    ensures text.Some? && !JavaBlank(text.value) ==> r == text
  {
    if text.Some? && !JavaBlank(text.value) then text else None
  }

  predicate PointsInRange(p: int) {
    0 <= p <= 10
  }

  /** The evaluation-type switch: what review a request stores, or `None`
      for a 400. TEXT stores the text and clears the points, whatever was
      sent; POINTS requires points in 0..10 and clears the text; BOTH takes
      either, with points, when present, in 0..10. */
  function ReviewFor(et: EvaluationType, text: Option<string>, points: Option<int>): (r: Option<Review>)
    ensures r.Some? ==> r.value.points.None? || PointsInRange(r.value.points.value)
    ensures r.Some? && r.value.text.Some? ==> !JavaBlank(r.value.text.value)
    ensures et == TEXT ==> r == Some(Review(KeepText(text), None))
    ensures et == POINTS ==> (r.Some? <==> points.Some? && PointsInRange(points.value))
    ensures et == POINTS && r.Some? ==> r.value == Review(None, points)
    ensures et == BOTH ==> (r.Some? <==> points.None? || PointsInRange(points.value))
    ensures et == BOTH && r.Some? ==> r.value == Review(KeepText(text), points)
  {
    match et
    case TEXT => Some(Review(KeepText(text), None))
    case POINTS => if points.None? || !PointsInRange(points.value) then None else Some(Review(None, points))
    case BOTH => if points.Some? && !PointsInRange(points.value) then None else Some(Review(KeepText(text), points))
  }

  /** `updateReview`, shared by the service and the controller. An unknown
      application is 404; an application whose task is not stored, points
      that do not parse, and points the evaluation type refuses are 400 and
      save nothing. Success writes the review and, when a stamp is given
      (the service passes the current time, the controller nothing),
      records it as the review's creation time; the last write wins. */
  function UpdateReview(db: Db, appId: AppId, body: Body, stamp: Option<Instant>): (r: Response<Db>)
    ensures appId !in db.apps <==> r == Err(NotFound, MissingEntity)
    ensures r.Err? && appId in db.apps ==> r == Err(BadRequest, InvalidReview)
    ensures appId in db.apps && db.apps[appId].taskId !in db.tasks ==> r.Err?
    ensures appId in db.apps && ParsePoints(body).None? ==> r.Err?
    ensures r.Ok? <==>
      && appId in db.apps
      && db.apps[appId].taskId in db.tasks
      && ParsePoints(body).Some?
      && ReviewFor(db.tasks[db.apps[appId].taskId].evaluationType, RequestText(body), ParsePoints(body).value).Some?
    ensures r.Ok? ==>
      var a := db.apps[appId];
      var rv := ReviewFor(db.tasks[a.taskId].evaluationType, RequestText(body), ParsePoints(body).value).value;
      r.value == db.(apps := db.apps[appId := a.(reviewText := rv.text, reviewPoints := rv.points,
                                                  reviewCreatedAt := if stamp.Some? then stamp else a.reviewCreatedAt)])
  {
    if appId !in db.apps then Err(NotFound, MissingEntity)
    else
      var a := db.apps[appId];
      if a.taskId !in db.tasks then Err(BadRequest, InvalidReview)
      else match ParsePoints(body)
        case None => Err(BadRequest, InvalidReview)
        case Some(points) =>
          match ReviewFor(db.tasks[a.taskId].evaluationType, RequestText(body), points)
          case None => Err(BadRequest, InvalidReview)
          case Some(rv) =>
            var stamped := if stamp.Some? then stamp else a.reviewCreatedAt;
            Ok(db.(apps := db.apps[appId := a.(reviewText := rv.text, reviewPoints := rv.points, reviewCreatedAt := stamped)]))
  }

  /** After any successful review the stored points are absent or in 0..10,
      the stored text is absent or not blank, and the fields the evaluation
      type excludes are cleared. */
  lemma UpdateReviewStoresValidReview(db: Db, appId: AppId, body: Body, stamp: Option<Instant>)
    requires UpdateReview(db, appId, body, stamp).Ok?
    ensures var a := UpdateReview(db, appId, body, stamp).value.apps[appId];
      var et := db.tasks[a.taskId].evaluationType;
      && (a.reviewPoints.None? || PointsInRange(a.reviewPoints.value))
      && (a.reviewText.Some? ==> !JavaBlank(a.reviewText.value))
      && (et == TEXT ==> a.reviewPoints.None?)
      && (et == POINTS ==> a.reviewText.None? && a.reviewPoints.Some?)
  {
  }

  /** The request body that submits a stored review again. */
  function ResubmitBody(rv: Review): Body {
    map["text" := rv.text, "points" := if rv.points.Some? then Some(IntToString(rv.points.value)) else None]
  }

  /** Sending a stored review back unchanged stores the same review: the
      printed points parse back to themselves and kept text is kept again. */
  lemma ReviewResubmitRoundTrip(db: Db, appId: AppId, body: Body, stamp: Option<Instant>, stamp2: Option<Instant>)
    requires UpdateReview(db, appId, body, stamp).Ok?
    ensures var once := UpdateReview(db, appId, body, stamp).value;
      var a := once.apps[appId];
      var again := UpdateReview(once, appId, ResubmitBody(Review(a.reviewText, a.reviewPoints)), stamp2);
      && again.Ok?
      && again.value.apps[appId].reviewText == a.reviewText
      && again.value.apps[appId].reviewPoints == a.reviewPoints
  {
    var once := UpdateReview(db, appId, body, stamp).value;
    var a := once.apps[appId];
    var b := ResubmitBody(Review(a.reviewText, a.reviewPoints));
    assert "text" in b && b["text"] == a.reviewText;
    if a.reviewPoints.Some? {
      ParseJavaIntOfIntToString(a.reviewPoints.value);
      assert !JavaBlank(IntToString(a.reviewPoints.value)) by {
        assert IntToString(a.reviewPoints.value)[0] == '-' || IsDigit(IntToString(a.reviewPoints.value)[0]);
      }
      assert ParsePoints(b) == Some(a.reviewPoints);
    } else {
      assert ParsePoints(b) == Some(None);
    }
  }

  // ---------------------------------------------------------------------
  // touchReviewView and the new-review watermark
  // ---------------------------------------------------------------------

  /** The user's applications on a task. */
  predicate OnTaskOf(a: Application, taskId: TaskId, user: string) {
    a.taskId == taskId && a.userName == user
  }

  /** `touchReviewView`: 404 when the user has no application on the task;
      otherwise every such application gets the same `now` as its review
      watermark and nothing else changes. */
  function TouchReviewView(db: Db, taskId: TaskId, user: string, now: Instant): (r: Response<Db>)
    ensures r.Err? <==> forall a :: a in db.apps ==> !OnTaskOf(db.apps[a], taskId, user)
    ensures r.Err? ==> r == Err(NotFound, MissingEntity)
    ensures r.Ok? ==> r.value.tasks == db.tasks && r.value.apps.Keys == db.apps.Keys
    ensures r.Ok? ==> forall a :: a in db.apps ==>
      r.value.apps[a] == if OnTaskOf(db.apps[a], taskId, user) then db.apps[a].(lastViewedReviewAt := Some(now)) else db.apps[a]
  {
    var mine := FindByTaskAndUserName(db, taskId, user);
    if forall a :: a in mine ==> false then
      Err(NotFound, MissingEntity)
    else
      Ok(db.(apps := map a | a in db.apps :: if a in mine then db.apps[a].(lastViewedReviewAt := Some(now)) else db.apps[a]))
  }

  /** Viewing a task after its last review was written clears it from the
      user's new-review notifications and leaves every other task's
      presence there as it was. */
  lemma TouchReviewViewClears(db: Db, taskId: TaskId, user: string, now: Instant)
    requires TouchReviewView(db, taskId, user, now).Ok?
    requires forall a :: a in db.apps && OnTaskOf(db.apps[a], taskId, user) && db.apps[a].reviewCreatedAt.Some? ==>
      db.apps[a].reviewCreatedAt.value <= now
    ensures var after := TouchReviewView(db, taskId, user, now).value;
      && taskId !in NewReviewCounts(after, user)
      && forall k :: k != taskId ==> (k in NewReviewCounts(after, user) <==> k in NewReviewCounts(db, user))
  {
    var after := TouchReviewView(db, taskId, user, now).value;
    TouchClearsReviews(db, taskId, user, now);
    forall k | k != taskId ensures k in NewReviewCounts(after, user) <==> k in NewReviewCounts(db, user) {
      TouchKeepsOtherReviews(db, taskId, user, now, k);
    }
  }

  /** Some application of the user on task k carries a review they have not seen. */
  predicate HasNewReview(db: Db, user: string, k: TaskId) {
    exists a :: a in db.apps && db.apps[a].taskId == k && IsNewReview(db.apps[a], user)
  }

  lemma TouchClearsReviews(db: Db, taskId: TaskId, user: string, now: Instant)
    requires TouchReviewView(db, taskId, user, now).Ok?
    requires forall a :: a in db.apps && OnTaskOf(db.apps[a], taskId, user) && db.apps[a].reviewCreatedAt.Some? ==>
      db.apps[a].reviewCreatedAt.value <= now
    ensures !HasNewReview(TouchReviewView(db, taskId, user, now).value, user, taskId)
  {
  }

  lemma TouchKeepsOtherReviews(db: Db, taskId: TaskId, user: string, now: Instant, k: TaskId)
    requires TouchReviewView(db, taskId, user, now).Ok? && k != taskId
    ensures HasNewReview(TouchReviewView(db, taskId, user, now).value, user, k) <==> HasNewReview(db, user, k)
  {
    var after := TouchReviewView(db, taskId, user, now).value;
    if HasNewReview(db, user, k) {
      var a :| a in db.apps && db.apps[a].taskId == k && IsNewReview(db.apps[a], user);
      assert after.apps[a] == db.apps[a];
    }
    if HasNewReview(after, user, k) {
      var a :| a in after.apps && after.apps[a].taskId == k && IsNewReview(after.apps[a], user);
      assert after.apps[a] == db.apps[a];
    }
  }

  /** A service review written after the user last looked shows up again:
      the review is stamped with a time later than the watermark. */
  lemma ServiceReviewAfterViewIsNew(db: Db, appId: AppId, body: Body, now: Instant)
    requires UpdateReview(db, appId, body, Some(now)).Ok?
    requires db.apps[appId].lastViewedReviewAt.None? || db.apps[appId].lastViewedReviewAt.value < now
    requires Reviewed(UpdateReview(db, appId, body, Some(now)).value.apps[appId])
    ensures var a := db.apps[appId];
      a.taskId in NewReviewCounts(UpdateReview(db, appId, body, Some(now)).value, a.userName)
  {
    var after := UpdateReview(db, appId, body, Some(now)).value;
    assert after.apps[appId].taskId == db.apps[appId].taskId;
    assert IsNewReview(after.apps[appId], db.apps[appId].userName);
  }

  /** A controller review never makes an application the user has already
      looked at new again: it leaves both timestamps as they were. */
  lemma ControllerReviewAfterViewIsNotNew(db: Db, appId: AppId, body: Body)
    requires UpdateReview(db, appId, body, None).Ok?
    requires db.apps[appId].lastViewedReviewAt.Some?
    requires db.apps[appId].reviewCreatedAt.None? || db.apps[appId].reviewCreatedAt.value <= db.apps[appId].lastViewedReviewAt.value
    ensures !IsNewReview(UpdateReview(db, appId, body, None).value.apps[appId], db.apps[appId].userName)
  {
  }

  // ---------------------------------------------------------------------
  // touchEliminationView
  // ---------------------------------------------------------------------

  /** `touchEliminationView`: mark the user's elimination on the task as
      seen; always 200. The task then no longer counts as an unseen
      elimination. */
  function TouchEliminationView(db: Db, taskId: TaskId, user: string): (r: Response<Db>)
    ensures r.Ok?
    ensures taskId !in UnseenEliminationCounts(r.value, user)
    ensures r.value.tasks == db.tasks && r.value.apps.Keys == db.apps.Keys
    ensures forall a :: a in db.apps && (db.apps[a].userName != user || db.apps[a].taskId != taskId) ==>
      r.value.apps[a] == db.apps[a]
    ensures forall a :: a in db.apps ==>
      r.value.apps[a] == db.apps[a] || r.value.apps[a] == db.apps[a].(eliminatedSeen := Some(true))
  {
    MarkEliminationSeenClears(db, user, taskId);
    Ok(MarkEliminationSeen(db, user, taskId).0)
  }

  // ---------------------------------------------------------------------
  // Round-activation notifications
  // ---------------------------------------------------------------------

  /** `Instant.EPOCH`, the watermark an application that was never viewed counts as. */
  const Epoch: Instant := 0

  /** The latest time any of the rounds was left, if any was. */
  function LastActivation(rs: seq<Round>): (r: Option<Instant>)
    ensures r.None? <==> forall i :: 0 <= i < |rs| ==> rs[i].activatedAt.None?
    ensures r.Some? ==> exists i :: 0 <= i < |rs| && rs[i].activatedAt == r
    ensures r.Some? ==> forall i :: 0 <= i < |rs| && rs[i].activatedAt.Some? ==> rs[i].activatedAt.value <= r.value
  {
    if |rs| == 0 then None
    else
      var rest := LastActivation(rs[1..]);
      assert forall i :: 1 <= i < |rs| ==> rs[i] == rs[1..][i - 1];
      match rs[0].activatedAt
      case None => rest
      case Some(t) =>
        if rest.Some? && t < rest.value then rest else Some(t)
  }

  /** Some round of the list was left strictly after the given time. */
  predicate ActivatedAfter(rs: seq<Round>, w: Instant) {
    exists i :: 0 <= i < |rs| && rs[i].activatedAt.Some? && rs[i].activatedAt.value > w
  }

  /** `RoundActivationNotificationDTO`: the count is always 1. */
  datatype RoundActivationRow = RoundActivationRow(taskId: TaskId, taskTitle: string, count: nat)

  /** The application gets a round-activation entry. */
  predicate NotifiesActivation(db: Db, a: Application, user: string) {
    && a.userName == user
    && a.taskId in db.tasks
    && user !in db.tasks[a.taskId].eliminatedApplicants
    && LastActivation(db.tasks[a.taskId].rounds).Some?
    && LastActivation(db.tasks[a.taskId].rounds).value > a.lastRoundActivationViewAt.GetOr(Epoch)
  }

  /** `listRoundActivationNotifications`: one entry per application, not per
      task. An application of the user gets one iff its task has not
      eliminated the user and some round of the task was left strictly
      after the application's watermark (epoch when never viewed). */
  function ListRoundActivationNotifications(db: Db, user: string): (r: map<AppId, RoundActivationRow>)
    ensures forall a :: a in r <==>
      && a in db.apps && db.apps[a].userName == user
      && db.apps[a].taskId in db.tasks
      && user !in db.tasks[db.apps[a].taskId].eliminatedApplicants
      && ActivatedAfter(db.tasks[db.apps[a].taskId].rounds, db.apps[a].lastRoundActivationViewAt.GetOr(Epoch))
    ensures forall a :: a in r ==> r[a] == RoundActivationRow(db.apps[a].taskId, db.tasks[db.apps[a].taskId].title, 1)
  {
    map a | a in db.apps && NotifiesActivation(db, db.apps[a], user)
      :: RoundActivationRow(db.apps[a].taskId, db.tasks[db.apps[a].taskId].title, 1)
  }

  /** `touchRoundActivationView`: every application of the user on the task
      gets `now` as its round-activation watermark; with none, nothing
      changes. */
  function TouchRoundActivationView(db: Db, taskId: TaskId, user: string, now: Instant): (r: Db)
    ensures r.tasks == db.tasks && r.apps.Keys == db.apps.Keys
    ensures forall a :: a in db.apps ==>
      r.apps[a] == if OnTaskOf(db.apps[a], taskId, user) then db.apps[a].(lastRoundActivationViewAt := Some(now)) else db.apps[a]
    ensures (forall a :: a in db.apps ==> !OnTaskOf(db.apps[a], taskId, user)) ==> r == db
  {
    var mine := FindByTaskAndUserName(db, taskId, user);
    if forall a :: a in mine ==> false then db
    else db.(apps := map a | a in db.apps :: if a in mine then db.apps[a].(lastRoundActivationViewAt := Some(now)) else db.apps[a])
  }

  /** After the user views the task at a time no earlier than any round was
      left, none of their applications on it has an entry, and every other
      application keeps its entry or its absence. */
  lemma TouchRoundActivationViewClears(db: Db, taskId: TaskId, user: string, now: Instant)
    requires taskId in db.tasks
    requires forall i :: 0 <= i < |db.tasks[taskId].rounds| && db.tasks[taskId].rounds[i].activatedAt.Some? ==>
      db.tasks[taskId].rounds[i].activatedAt.value <= now
    ensures var after := TouchRoundActivationView(db, taskId, user, now);
      var list := ListRoundActivationNotifications(after, user);
      && (forall a :: a in db.apps && OnTaskOf(db.apps[a], taskId, user) ==> a !in list)
      && (forall a :: a in db.apps && !OnTaskOf(db.apps[a], taskId, user) ==> (a in list <==> a in ListRoundActivationNotifications(db, user)))
  {
  }

  /** The service's activation notifies: an applicant who was not eliminated
      and last looked before the activation gets an entry for each of their
      applications on the task. */
  lemma ServiceActivationNotifies(db: Db, id: TaskId, today: Day, now: Instant, appId: AppId)
    requires ActivateNextRound(db, id, today, now).Ok?
    requires appId in db.apps && db.apps[appId].taskId == id
    requires db.apps[appId].userName !in db.tasks[id].eliminatedApplicants
    requires db.apps[appId].lastRoundActivationViewAt.GetOr(Epoch) < now
    ensures appId in ListRoundActivationNotifications(ActivateNextRound(db, id, today, now).value, db.apps[appId].userName)
  {
    var after := ActivateNextRound(db, id, today, now).value;
    var i := CurrentIndex(db.tasks[id].rounds).value;
    var left := SortOrder(db.tasks[id].rounds)[i];
    assert after.tasks[id].rounds[left].activatedAt == Some(now);
  }

  /** Replacing a task's rounds by rounds left after the same instants
      leaves every user's list as it was. */
  lemma ListFollowsActivations(db: Db, id: TaskId, rs: seq<Round>, user: string)
    requires id in db.tasks
    requires forall w: Instant :: ActivatedAfter(rs, w) <==> ActivatedAfter(db.tasks[id].rounds, w)
    ensures var after := db.(tasks := db.tasks[id := db.tasks[id].(rounds := rs)]);
      ListRoundActivationNotifications(after, user) == ListRoundActivationNotifications(db, user)
  {
    var after := db.(tasks := db.tasks[id := db.tasks[id].(rounds := rs)]);
    var l1 := ListRoundActivationNotifications(after, user);
    var l2 := ListRoundActivationNotifications(db, user);
    forall a | a in db.apps ensures a in l1 <==> a in l2 {
      var t := db.apps[a].taskId;
      if t != id {
        assert t in after.tasks ==> after.tasks[t] == db.tasks[t];
      }
    }
    assert l1.Keys == l2.Keys;
    assert forall t :: t in db.tasks ==> after.tasks[t].title == db.tasks[t].title;
  }

  lemma ActivatedAfterSameStamps(a: seq<Round>, b: seq<Round>, w: Instant)
    requires |a| == |b| && forall j :: 0 <= j < |a| ==> a[j].activatedAt == b[j].activatedAt
    ensures ActivatedAfter(a, w) <==> ActivatedAfter(b, w)
  {
    if ActivatedAfter(b, w) {
      var i :| 0 <= i < |b| && b[i].activatedAt.Some? && b[i].activatedAt.value > w;
      assert a[i].activatedAt == b[i].activatedAt;
    }
  }

  /** The controller's activation notifies nobody: no round's activation
      time changes, so every user's list stays as it was. */
  lemma ControllerActivationIsSilent(db: Db, id: TaskId, today: Day, user: string)
    requires ControllerActivateNextRound(db, id, today).Ok?
    ensures ListRoundActivationNotifications(ControllerActivateNextRound(db, id, today).value, user)
         == ListRoundActivationNotifications(db, user)
  {
    var after := ControllerActivateNextRound(db, id, today).value;
    var t := db.tasks[id];
    var rs := after.tasks[id].rounds;
    assert after == db.(tasks := db.tasks[id := t.(rounds := rs)]);
    forall w: Instant ensures ActivatedAfter(rs, w) <==> ActivatedAfter(t.rounds, w) {
      ActivatedAfterSameStamps(rs, t.rounds, w);
    }
    ListFollowsActivations(db, id, rs, user);
  }
}
