/** The records the React client receives from the server, as the pages
    read them. A JSON `null`, an absent key and (for strings) the empty
    string are all falsy to the client; where the code only tests
    truthiness they are modelled by one value (`""` or `None`). */
module ClientTypes {
  import opened Wrappers
  import opened Entities

  /** The logged-in user (`user` from the identity provider). */
  datatype User = User(id: string, username: string)

  /** A task as embedded in an application (`app.task`, `app.round.task`). */
  datatype TaskRef = TaskRef(id: int, title: string, creator: string)

  /** An application's round as embedded in the application (`app.round`). */
  datatype RoundRef = RoundRef(id: int, task: Option<TaskRef>)

  /** A review score in the client's state: absent (`null`), a number, or
      `NaN`, which `Number` yields for text that is not a number. */
  datatype JsPoints = NullPoints | NaNPoints | Points(n: int)

  /** An application as the client holds it. `id` is absent when the object
      carries no "id" key. */
  datatype CApp = CApp(
    id: Option<int>,
    userId: string,
    userName: string,
    task: Option<TaskRef>,
    round: Option<RoundRef>,
    reviewText: Option<string>,
    reviewPoints: JsPoints)

  /** A round as the client holds it; `deadline` is the ISO text the server
      sends (`""` when there is none). */
  datatype CRound = CRound(id: int, description: string, deadline: string, isActive: bool, applications: seq<CApp>)

  /** A task as the client holds it. `rounds` is `None` when the key is
      absent; `applicationDeadline` is `""` when there is none. */
  datatype CTask = CTask(
    id: int,
    title: string,
    description: string,
    applicationDeadline: string,
    creator: string,
    rounds: Option<seq<CRound>>,
    applications: seq<CApp>,
    evaluationType: Option<EvaluationType>)

  /** `user?.id` compared with `===` against a string field. */
  predicate IsUserId(viewer: Option<User>, s: string) {
    viewer.Some? && viewer.value.id == s
  }

  /** `user?.username` compared with `===` against a string field. */
  predicate IsUserName(viewer: Option<User>, s: string) {
    viewer.Some? && viewer.value.username == s
  }

  /** `app.round?.id === roundId`. */
  predicate OnRound(a: CApp, roundId: int) {
    a.round.Some? && a.round.value.id == roundId
  }

  /** A string is truthy when it is present and not empty. */
  predicate Truthy(s: Option<string>) {
    s.Some? && s.value != ""
  }

  /** `points != null` (`NaN` is not null). */
  predicate HasPoints(p: JsPoints) {
    !p.NullPoints?
  }
}
