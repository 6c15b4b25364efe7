/** The request and response shapes of the authentication endpoint, with the
    JSON bodies already parsed and the headers dropped. */
module AuthApi {

  import opened Wrappers

  /** The fields of a POST body the handler reads; a missing key is `None`. */
  datatype Body = Body(
    action: Option<string>,
    username: Option<string>,
    email: Option<string>,
    password: Option<string>)

  /** The event: its `httpMethod` (possibly missing) and its parsed body. */
  datatype Request = Request(httpMethod: Option<string>, body: Body)

  /** The environment: the `DATABASE_URL` variable, possibly unset. */
  datatype Env = Env(databaseUrl: Option<string>)

  /** One tag per distinct `error` message the handler returns. */
  datatype ErrorKind =
    | DatabaseNotConfigured
    | InvalidAction
    | MethodNotAllowed
    | MissingRegistrationFields
    | InvalidUsername
    | InvalidEmail
    | PasswordTooShort
    | UserAlreadyExists
    | MissingCredentials
    | WrongCredentials

  datatype UserInfo = UserInfo(id: nat, username: string, email: string)

  /** The `profile` object of a successful login, every field filled in. */
  datatype ProfileView = ProfileView(
    characterName: string,
    level: int,
    experience: int,
    money: int,
    playtimeHours: int,
    jobsCompleted: int,
    racesParticipated: int,
    crimesCommitted: int)

  /** One entry of the `achievements` list of a successful login; the values
      come straight from the database and may be NULL. */
  datatype AchievementView = AchievementView(
    id: nat,
    name: string,
    description: string,
    requiredValue: Option<int>,
    rewardMoney: Option<int>,
    completed: Option<bool>,
    progress: Option<int>)

  /** What the response body carries. */
  datatype Payload =
    | NoContent
    | ErrorMessage(error: ErrorKind)
    | Registered(user: UserInfo)
    | LoggedIn(user: UserInfo, profile: ProfileView, achievements: seq<AchievementView>)
  {
    /** The body's `success: true`. */
    predicate Success()
    {
      Registered? || LoggedIn?
    }
  }

  datatype Response = Response(status: int, payload: Payload)

  /** `data.get(key, '')`. */
  function FieldOrEmpty(field: Option<string>): string
  {
    field.GetOr("")
  }
}
