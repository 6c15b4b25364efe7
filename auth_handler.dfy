/** The endpoint's entry point `handler`: the order in which it answers
    pre-flight requests, a missing database configuration, POST actions and
    every other method; and the table-holding database it runs against. */
module AuthHandler {

  import opened Wrappers
  import opened AuthApi
  import opened AuthStore

  /** `event.get('httpMethod', 'GET')`. */
  function MethodOf(req: Request): string
  {
    req.httpMethod.GetOr("GET")
  }

  /** `DATABASE_URL` is set and non-empty. */
  predicate Configured(env: Env)
  {
    env.databaseUrl.Some? && env.databaseUrl.value != ""
  }

  /** Where `handler` sends a request: an immediate answer, or one of the
      two action handlers. */
  datatype Route = Answer(response: Response) | ToRegister | ToLogin

  /** `handler`'s dispatch. OPTIONS is answered before the configuration is
      looked at; without a database URL everything else is a 500; a POST goes
      to the handler its action names, or gets a 400; any other method a 405. */
  function RouteOf(req: Request, env: Env): (r: Route)
    ensures MethodOf(req) == "OPTIONS" ==> r == Answer(Response(200, NoContent))
    ensures MethodOf(req) != "OPTIONS" && !Configured(env) ==>
              r == Answer(Response(500, ErrorMessage(DatabaseNotConfigured)))
    ensures r == ToRegister <==>
              MethodOf(req) == "POST" && Configured(env) && req.body.action == Some("register")
    ensures r == ToLogin <==>
              MethodOf(req) == "POST" && Configured(env) && req.body.action == Some("login")
    ensures r == Answer(Response(400, ErrorMessage(InvalidAction))) <==>
              && MethodOf(req) == "POST" && Configured(env)
              && req.body.action != Some("register") && req.body.action != Some("login")
    ensures r == Answer(Response(405, ErrorMessage(MethodNotAllowed))) <==>
              MethodOf(req) != "OPTIONS" && MethodOf(req) != "POST" && Configured(env)
  {
    var httpMethod := MethodOf(req);
    if httpMethod == "OPTIONS" then Answer(Response(200, NoContent))
    else if !Configured(env) then Answer(Response(500, ErrorMessage(DatabaseNotConfigured)))
    else if httpMethod == "POST" then
      if req.body.action == Some("register") then ToRegister
      else if req.body.action == Some("login") then ToLogin
      else Answer(Response(400, ErrorMessage(InvalidAction)))
    else Answer(Response(405, ErrorMessage(MethodNotAllowed)))
  }

  /** `handler` against the tables: the response and the new tables. */
  function HandleOutcome(t: Tables, req: Request, env: Env, hash: string -> string): (Response, Tables)
  {
    match RouteOf(req, env)
    case Answer(resp) => (resp, t)
    case ToRegister => RegisterOutcome(t, req.body, hash)
    case ToLogin => (LoginOutcome(t, req.body, hash), t)
  }

  /** Only a registration that answers 201 writes to the database; every
      other request, a login included, leaves the tables as they were. */
  lemma OnlyRegistrationWrites(t: Tables, req: Request, env: Env, hash: string -> string)
    ensures var (resp, t') := HandleOutcome(t, req, env, hash);
            t' != t ==> RouteOf(req, env) == ToRegister && resp.status == 201
  {
    if RouteOf(req, env) == ToRegister {
      RegisterResponses(t, req.body, hash);
    }
  }

  /** The status codes `handler` can answer with, and which of them carry
      `success: true`. */
  lemma HandleStatuses(t: Tables, req: Request, env: Env, hash: string -> string)
    ensures var (resp, _) := HandleOutcome(t, req, env, hash);
            && resp.status in {200, 201, 400, 401, 405, 409, 500}
            && (resp.payload.Success() <==> resp.status in {200, 201} && MethodOf(req) == "POST")
  {
    match RouteOf(req, env)
    case Answer(_) =>
    case ToRegister => RegisterResponses(t, req.body, hash);
    case ToLogin => LoginStatuses(t, req.body, hash);
  }

  /** A pre-flight request succeeds with an empty body whatever the
      configuration and the tables. */
  lemma OptionsAlwaysSucceeds(t: Tables, body: Body, env: Env, hash: string -> string)
    ensures HandleOutcome(t, Request(Some("OPTIONS"), body), env, hash) == (Response(200, NoContent), t)
  {
  }

  /** Every request keeps the tables well formed. */
  lemma HandleKeepsWellFormed(t: Tables, req: Request, env: Env, hash: string -> string)
    requires WellFormed(t)
    ensures WellFormed(HandleOutcome(t, req, env, hash).1)
  {
    if RouteOf(req, env) == ToRegister {
      RegisterKeepsWellFormed(t, req.body, hash);
    }
  }

  /** The database the endpoint connects to: the tables the handlers read
      and insert into, and the users' id sequence. */
  class Database {
    var users: seq<User>
    var profiles: seq<Profile>
    var achievements: seq<Achievement>
    var userAchievements: seq<UserAchievement>
    var nextUserId: nat

    function Snapshot(): Tables
      reads this
    {
      Tables(users, profiles, achievements, userAchievements, nextUserId)
    }

    ghost predicate Valid()
      reads this
    {
      WellFormed(Snapshot())
    }

    /** A database holding the given well-formed tables. */
    constructor (t: Tables)
      requires WellFormed(t)
      ensures Valid() && Snapshot() == t
    {
      users := t.users;
      profiles := t.profiles;
      achievements := t.achievements;
      userAchievements := t.userAchievements;
      nextUserId := t.nextUserId;
    }

    /** `handle_register`: the checks in order, the duplicate check, then the
        user insert, the profile insert and the starting achievements. */
    method Register(body: Body, hash: string -> string) returns (resp: Response)
      requires Valid()
      modifies this
      ensures Valid()
      ensures (resp, Snapshot()) == RegisterOutcome(old(Snapshot()), body, hash)
    {
      RegisterKeepsWellFormed(Snapshot(), body, hash);
      var f := RegistrationFields(body);
      var failure := CheckRegistration(f);
      if failure.Some? {
        return Response(400, ErrorMessage(failure.value));
      }
      if HasConflict(users, f.username, f.email) {
        return Response(409, ErrorMessage(UserAlreadyExists));
      }
      ghost var before := Snapshot();
      var userId := nextUserId;
      users := users + [User(userId, f.username, f.email, hash(f.password))];
      nextUserId := nextUserId + 1;
      profiles := profiles + [NewProfile(userId, DefaultCharacterName(f.username))];
      InsertStarterAchievements(userId);
      assert Snapshot() == Enrol(before, f, hash);
      resp := Response(201, Registered(UserInfo(userId, f.username, f.email)));
    }

    /** The registration loop: one user-achievement row per catalog entry,
        in catalog order; nothing else changes. */
    method InsertStarterAchievements(userId: nat)
      modifies this
      ensures userAchievements == old(userAchievements) + StarterRows(userId, achievements)
      ensures users == old(users) && profiles == old(profiles)
      ensures achievements == old(achievements) && nextUserId == old(nextUserId)
    {
      var i := 0;
      while i < |achievements|
        invariant 0 <= i <= |achievements|
        invariant userAchievements == old(userAchievements) + StarterRows(userId, achievements[..i])
        invariant users == old(users) && profiles == old(profiles)
        invariant achievements == old(achievements) && nextUserId == old(nextUserId)
      {
        assert StarterRows(userId, achievements[..i + 1])
            == StarterRows(userId, achievements[..i]) + [StarterRow(userId, achievements[i])];
        userAchievements := userAchievements + [UserAchievement(userId, achievements[i].id, None, None)];
        i := i + 1;
      }
      assert achievements[..i] == achievements;
    }

    /** `handler`: dispatch, then the chosen handler; a login only reads. */
    method Handle(req: Request, env: Env, hash: string -> string) returns (resp: Response)
      requires Valid()
      modifies this
      ensures Valid()
      ensures (resp, Snapshot()) == HandleOutcome(old(Snapshot()), req, env, hash)
    {
      match RouteOf(req, env)
      case Answer(r) =>
        resp := r;
      case ToRegister =>
        resp := Register(req.body, hash);
      case ToLogin =>
        resp := LoginOutcome(Snapshot(), req.body, hash);
    }
  }
}
