/** The database behind the endpoint as in-memory tables, and what
    `handle_register` and `handle_login` do with them: the ordered validation
    chain, the duplicate check, the inserts of a registration, and the
    lookup and null-defaulting of a login. */
module AuthStore {

  import opened Wrappers
  import opened AuthValidation
  import opened AuthApi

  // ----- tables -----

  datatype User = User(id: nat, username: string, email: string, passwordHash: string)

  /** A `player_profiles` row; `None` is a NULL column. */
  datatype Profile = Profile(
    userId: nat,
    characterName: Option<string>,
    level: Option<int>,
    experience: Option<int>,
    money: Option<int>,
    playtimeHours: Option<int>,
    jobsCompleted: Option<int>,
    racesParticipated: Option<int>,
    crimesCommitted: Option<int>)

  /** An `achievements` catalog row. */
  datatype Achievement = Achievement(
    id: nat,
    name: string,
    description: string,
    requiredValue: Option<int>,
    rewardMoney: Option<int>)

  /** A `user_achievements` row. */
  datatype UserAchievement = UserAchievement(
    userId: nat,
    achievementId: nat,
    completed: Option<bool>,
    progress: Option<int>)

  /** The four tables and the next value of the users' id sequence. */
  datatype Tables = Tables(
    users: seq<User>,
    profiles: seq<Profile>,
    achievements: seq<Achievement>,
    userAchievements: seq<UserAchievement>,
    nextUserId: nat)

  predicate AchievementIdsDistinct(catalog: seq<Achievement>)
  {
    forall i, j | 0 <= i < j < |catalog| :: catalog[i].id != catalog[j].id
  }

  /** What the tables keep: ids come from the sequence, user ids, usernames
      and emails are unique, every profile and user-achievement row belongs
      to an id already handed out, and catalog ids are a primary key. */
  ghost predicate WellFormed(t: Tables)
  {
    && (forall i | 0 <= i < |t.users| :: t.users[i].id < t.nextUserId)
    && (forall i, j | 0 <= i < j < |t.users| ::
          && t.users[i].id != t.users[j].id
          && t.users[i].username != t.users[j].username
          && t.users[i].email != t.users[j].email)
    && (forall i | 0 <= i < |t.profiles| :: t.profiles[i].userId < t.nextUserId)
    && (forall i | 0 <= i < |t.userAchievements| :: t.userAchievements[i].userId < t.nextUserId)
    && AchievementIdsDistinct(t.achievements)
  }

  // ----- registration -----

  /** The three fields as `handle_register` reads them: username trimmed,
      email trimmed and lower-cased, password as sent. */
  datatype Registration = Registration(username: string, email: string, password: string)

  function RegistrationFields(body: Body): Registration
  {
    Registration(
      Strip(FieldOrEmpty(body.username)),
      Lower(Strip(FieldOrEmpty(body.email))),
      FieldOrEmpty(body.password))
  }

  /** The checks of `handle_register`, in order; the first that fails names
      the error. Passing them all means the username and email are valid and
      the password has at least six characters: the emptiness check only
      chooses which error is reported. */
  function CheckRegistration(f: Registration): (r: Option<ErrorKind>)
    ensures r.None? <==>
              ValidateUsername(f.username) && ValidateEmail(f.email) && |f.password| >= 6
    ensures r == Some(MissingRegistrationFields) <==>
              f.username == "" || f.email == "" || f.password == ""
    ensures r == Some(InvalidUsername) <==>
              f.username != "" && f.email != "" && f.password != ""
              && !ValidateUsername(f.username)
    ensures r == Some(InvalidEmail) <==>
              f.username != "" && f.email != "" && f.password != ""
              && ValidateUsername(f.username) && !ValidateEmail(f.email)
    ensures r == Some(PasswordTooShort) <==>
              f.username != "" && f.email != "" && f.password != ""
              && ValidateUsername(f.username) && ValidateEmail(f.email) && |f.password| < 6
  {
    if f.username == "" || f.email == "" || f.password == "" then Some(MissingRegistrationFields)
    else if !ValidateUsername(f.username) then Some(InvalidUsername)
    else if !ValidateEmail(f.email) then Some(InvalidEmail)
    else if |f.password| < 6 then Some(PasswordTooShort)
    else None
  }

  /** The duplicate check: some user has this username or this email. */
  predicate HasConflict(users: seq<User>, username: string, email: string)
  {
    exists i | 0 <= i < |users| :: users[i].username == username || users[i].email == email
  }

  /** The character name every new profile gets. */
  function DefaultCharacterName(username: string): string
  {
    username + "_Character"
  }

  /** The profile row a registration inserts: only `user_id` and
      `character_name` are given, every other column is left NULL. */
  function NewProfile(userId: nat, characterName: string): Profile
  {
    Profile(userId, Some(characterName), None, None, None, None, None, None, None)
  }

  /** The user-achievement row a registration inserts for one catalog entry. */
  function StarterRow(userId: nat, a: Achievement): UserAchievement
  {
    UserAchievement(userId, a.id, None, None)
  }

  /** The rows the registration loop inserts, one per catalog entry, in order. */
  function StarterRows(userId: nat, catalog: seq<Achievement>): seq<UserAchievement>
  {
    seq(|catalog|, k requires 0 <= k < |catalog| => StarterRow(userId, catalog[k]))
  }

  /** `handle_register` against the tables: the response and the new tables. */
  function RegisterOutcome(t: Tables, body: Body, hash: string -> string): (Response, Tables)
  {
    var f := RegistrationFields(body);
    match CheckRegistration(f)
    case Some(err) => (Response(400, ErrorMessage(err)), t)
    case None =>
      if HasConflict(t.users, f.username, f.email) then
        (Response(409, ErrorMessage(UserAlreadyExists)), t)
      else
        (Response(201, Registered(UserInfo(t.nextUserId, f.username, f.email))), Enrol(t, f, hash))
  }

  /** The inserts of a registration: the user under the next id, its profile,
      and one user-achievement row per catalog entry. */
  function Enrol(t: Tables, f: Registration, hash: string -> string): Tables
  {
    var userId := t.nextUserId;
    t.(users := t.users + [User(userId, f.username, f.email, hash(f.password))],
       profiles := t.profiles + [NewProfile(userId, DefaultCharacterName(f.username))],
       userAchievements := t.userAchievements + StarterRows(userId, t.achievements),
       nextUserId := userId + 1)
  }

  // ----- login -----

  /** The login query's WHERE clause: the first user with this username and
      password hash. */
  function FindAccount(users: seq<User>, username: string, passwordHash: string): (r: Option<User>)
    ensures r.Some? ==> r.value in users
    ensures r.Some? ==> r.value.username == username && r.value.passwordHash == passwordHash
    ensures r.None? <==>
              forall i | 0 <= i < |users| ::
                users[i].username != username || users[i].passwordHash != passwordHash
  {
    if users == [] then None
    else if users[0].username == username && users[0].passwordHash == passwordHash then Some(users[0])
    else FindAccount(users[1..], username, passwordHash)
  }

  /** The LEFT JOIN on profiles: the user's first profile row, or a row of
      NULLs when there is none. */
  function ProfileOf(profiles: seq<Profile>, userId: nat): (r: Profile)
    ensures r in profiles || r == Profile(userId, None, None, None, None, None, None, None, None)
    ensures (exists i | 0 <= i < |profiles| :: profiles[i].userId == userId) ==> r in profiles
    ensures r.userId == userId
    ensures (forall i | 0 <= i < |profiles| :: profiles[i].userId != userId) ==>
              r == Profile(userId, None, None, None, None, None, None, None, None)
  {
    if profiles == [] then Profile(userId, None, None, None, None, None, None, None, None)
    else if profiles[0].userId == userId then profiles[0]
    else ProfileOf(profiles[1..], userId)
  }

  /** Python's `value or default` on a number: NULL and 0 are falsy. */
  function OrInt(value: Option<int>, default: int): int
  {
    if value.None? || value.value == 0 then default else value.value
  }

  /** Python's `value or default` on a string: NULL and '' are falsy. */
  function OrString(value: Option<string>, default: string): string
  {
    if value.None? || value.value == "" then default else value.value
  }

  /** The `profile` object of the login response: a NULL or 0 level becomes
      1, any other level is kept; a NULL count becomes 0, a stored one is
      kept (a stored 0 stays 0); a NULL or empty character name becomes
      username + "_Character", a non-empty one is kept. So the level is never
      0 and the character name never empty. */
  function ProfileViewOf(username: string, p: Profile): (r: ProfileView)
    ensures r.level != 0
    ensures r.characterName != ""
    ensures p.level.None? || p.level == Some(0) ==> r.level == 1
    ensures p.level.Some? && p.level.value != 0 ==> r.level == p.level.value
    ensures p.characterName.None? || p.characterName == Some("") ==>
              r.characterName == DefaultCharacterName(username)
    ensures p.characterName.Some? && p.characterName.value != "" ==>
              r.characterName == p.characterName.value
    ensures p.experience.None? ==> r.experience == 0
    ensures p.experience.Some? ==> r.experience == p.experience.value
    ensures p.money.None? ==> r.money == 0
    ensures p.money.Some? ==> r.money == p.money.value
    ensures p.playtimeHours.None? ==> r.playtimeHours == 0
    ensures p.playtimeHours.Some? ==> r.playtimeHours == p.playtimeHours.value
    ensures p.jobsCompleted.None? ==> r.jobsCompleted == 0
    ensures p.jobsCompleted.Some? ==> r.jobsCompleted == p.jobsCompleted.value
    ensures p.racesParticipated.None? ==> r.racesParticipated == 0
    ensures p.racesParticipated.Some? ==> r.racesParticipated == p.racesParticipated.value
    ensures p.crimesCommitted.None? ==> r.crimesCommitted == 0
    ensures p.crimesCommitted.Some? ==> r.crimesCommitted == p.crimesCommitted.value
  {
    ProfileView(
      OrString(p.characterName, DefaultCharacterName(username)),
      OrInt(p.level, 1),
      OrInt(p.experience, 0),
      OrInt(p.money, 0),
      OrInt(p.playtimeHours, 0),
      OrInt(p.jobsCompleted, 0),
      OrInt(p.racesParticipated, 0),
      OrInt(p.crimesCommitted, 0))
  }

  function AchievementViewOf(a: Achievement, ua: UserAchievement): AchievementView
  {
    AchievementView(a.id, a.name, a.description, a.requiredValue, a.rewardMoney, ua.completed, ua.progress)
  }

  /** The inner JOIN of one user-achievement row with the catalog. */
  function JoinRow(ua: UserAchievement, catalog: seq<Achievement>): seq<AchievementView>
  {
    if catalog == [] then []
    else
      (if catalog[0].id == ua.achievementId then [AchievementViewOf(catalog[0], ua)] else [])
      + JoinRow(ua, catalog[1..])
  }

  /** The achievements query: the user's user-achievement rows, in table
      order, joined with the catalog. */
  function AchievementsOf(rows: seq<UserAchievement>, catalog: seq<Achievement>, userId: nat): seq<AchievementView>
  {
    if rows == [] then []
    else
      var last := rows[|rows| - 1];
      AchievementsOf(rows[..|rows| - 1], catalog, userId)
      + (if last.userId == userId then JoinRow(last, catalog) else [])
  }

  /** A view is in the query's result exactly when it joins a row of that
      user with a catalog entry of the row's achievement id. */
  lemma {:induction false} AchievementsOfMembers(
    rows: seq<UserAchievement>, catalog: seq<Achievement>, userId: nat, v: AchievementView)
    ensures v in AchievementsOf(rows, catalog, userId) <==>
              exists i, k | 0 <= i < |rows| && 0 <= k < |catalog| ::
                && rows[i].userId == userId
                && catalog[k].id == rows[i].achievementId
                && v == AchievementViewOf(catalog[k], rows[i])
    decreases |rows|
  {
    if rows != [] {
      var init := rows[..|rows| - 1];
      var last := rows[|rows| - 1];
      AchievementsOfMembers(init, catalog, userId, v);
      JoinRowMembers(last, catalog, v);
      if v in AchievementsOf(rows, catalog, userId) {
        if v in AchievementsOf(init, catalog, userId) {
          var i, k :| 0 <= i < |init| && 0 <= k < |catalog|
                      && init[i].userId == userId && catalog[k].id == init[i].achievementId
                      && v == AchievementViewOf(catalog[k], init[i]);
          assert rows[i] == init[i];
        } else {
          var k :| 0 <= k < |catalog| && catalog[k].id == last.achievementId
                   && v == AchievementViewOf(catalog[k], last);
          assert rows[|rows| - 1] == last;
        }
      }
      if exists i, k | 0 <= i < |rows| && 0 <= k < |catalog| ::
           && rows[i].userId == userId
           && catalog[k].id == rows[i].achievementId
           && v == AchievementViewOf(catalog[k], rows[i])
      {
        var i, k :| 0 <= i < |rows| && 0 <= k < |catalog|
                    && rows[i].userId == userId && catalog[k].id == rows[i].achievementId
                    && v == AchievementViewOf(catalog[k], rows[i]);
        if i < |rows| - 1 {
          assert init[i] == rows[i];
        }
      }
    }
  }

  /** A view is in the join of one row exactly when it pairs that row with a
      catalog entry of its achievement id. */
  lemma {:induction false} JoinRowMembers(ua: UserAchievement, catalog: seq<Achievement>, v: AchievementView)
    ensures v in JoinRow(ua, catalog) <==>
              exists k | 0 <= k < |catalog| ::
                catalog[k].id == ua.achievementId && v == AchievementViewOf(catalog[k], ua)
    decreases |catalog|
  {
    if catalog != [] {
      JoinRowMembers(ua, catalog[1..], v);
      if exists k | 0 <= k < |catalog| ::
           catalog[k].id == ua.achievementId && v == AchievementViewOf(catalog[k], ua)
      {
        var k :| 0 <= k < |catalog| && catalog[k].id == ua.achievementId && v == AchievementViewOf(catalog[k], ua);
        if k > 0 {
          assert catalog[1..][k - 1] == catalog[k];
        }
      }
      if v in JoinRow(ua, catalog[1..]) {
        var k :| 0 <= k < |catalog[1..]| && catalog[1..][k].id == ua.achievementId
                 && v == AchievementViewOf(catalog[1..][k], ua);
        assert catalog[k + 1] == catalog[1..][k];
      }
    }
  }

  /** `handle_login` against the tables. */
  function LoginOutcome(t: Tables, body: Body, hash: string -> string): Response
  {
    var username := Strip(FieldOrEmpty(body.username));
    var password := FieldOrEmpty(body.password);
    if username == "" || password == "" then
      Response(400, ErrorMessage(MissingCredentials))
    else
      match FindAccount(t.users, username, hash(password))
      case None => Response(401, ErrorMessage(WrongCredentials))
      case Some(u) =>
        Response(200, LoggedIn(
          UserInfo(u.id, u.username, u.email),
          ProfileViewOf(u.username, ProfileOf(t.profiles, u.id)),
          AchievementsOf(t.userAchievements, t.achievements, u.id)))
  }

  // ----- properties of registration -----

  /** A registration answers 400 exactly when a check fails, naming the first
      failing check; 409 exactly when the checks pass but the username or the
      email is taken; 201 otherwise. Only 201 changes the tables and only 201
      reports success. */
  lemma RegisterResponses(t: Tables, body: Body, hash: string -> string)
    ensures var (resp, t') := RegisterOutcome(t, body, hash);
            var f := RegistrationFields(body);
            && resp.status in {400, 409, 201}
            && (resp.status == 400 <==> CheckRegistration(f).Some?)
            && (resp.status == 400 ==> resp.payload == ErrorMessage(CheckRegistration(f).value))
            && (resp.status == 409 <==>
                  CheckRegistration(f).None? && HasConflict(t.users, f.username, f.email))
            && (resp.status == 409 ==> resp.payload == ErrorMessage(UserAlreadyExists))
            && (resp.status != 201 ==> t' == t)
            && (resp.payload.Success() <==> resp.status == 201)
  {
    var f := RegistrationFields(body);
    var check := CheckRegistration(f);
    if check.Some? {
      assert RegisterOutcome(t, body, hash) == (Response(400, ErrorMessage(check.value)), t);
    } else if HasConflict(t.users, f.username, f.email) {
      assert RegisterOutcome(t, body, hash) == (Response(409, ErrorMessage(UserAlreadyExists)), t);
    } else {
      assert RegisterOutcome(t, body, hash)
          == (Response(201, Registered(UserInfo(t.nextUserId, f.username, f.email))), Enrol(t, f, hash));
    }
  }

  /** A successful registration adds exactly one user, holding the hash of the
      password, one profile named username + "_Character", and one
      user-achievement row per catalog entry; it answers 201 with the new
      user's id, username and email. */
  lemma RegisterCreates(t: Tables, body: Body, hash: string -> string)
    ensures var (resp, t') := RegisterOutcome(t, body, hash);
            var f := RegistrationFields(body);
            && (resp.status == 201 <==>
                  CheckRegistration(f).None? && !HasConflict(t.users, f.username, f.email))
            && (resp.status == 201 ==>
                  && resp.payload == Registered(UserInfo(t.nextUserId, f.username, f.email))
                  && resp.payload.Success()
                  && ValidateUsername(f.username) && ValidateEmail(f.email) && |f.password| >= 6
                  && t'.users == t.users + [User(t.nextUserId, f.username, f.email, hash(f.password))]
                  && t'.profiles == t.profiles + [NewProfile(t.nextUserId, f.username + "_Character")]
                  && t'.achievements == t.achievements
                  && |t'.userAchievements| == |t.userAchievements| + |t.achievements|
                  && t'.userAchievements[..|t.userAchievements|] == t.userAchievements
                  && (forall k | 0 <= k < |t.achievements| ::
                        t'.userAchievements[|t.userAchievements| + k]
                        == UserAchievement(t.nextUserId, t.achievements[k].id, None, None)))
  {
    var f := RegistrationFields(body);
    if CheckRegistration(f).None? && !HasConflict(t.users, f.username, f.email) {
      var t' := Enrol(t, f, hash);
      assert RegisterOutcome(t, body, hash)
          == (Response(201, Registered(UserInfo(t.nextUserId, f.username, f.email))), t');
      assert t'.userAchievements[..|t.userAchievements|] == t.userAchievements;
    } else {
      RegisterResponses(t, body, hash);
    }
  }

  /** Registration keeps the tables well formed. */
  lemma RegisterKeepsWellFormed(t: Tables, body: Body, hash: string -> string)
    requires WellFormed(t)
    ensures WellFormed(RegisterOutcome(t, body, hash).1)
  {
    var f := RegistrationFields(body);
    if CheckRegistration(f).None? && !HasConflict(t.users, f.username, f.email) {
      EnrolKeepsWellFormed(t, f, hash);
    }
  }

  /** Enrolling a user whose username and email nobody has keeps the tables
      well formed. */
  lemma EnrolKeepsWellFormed(t: Tables, f: Registration, hash: string -> string)
    requires WellFormed(t)
    requires !HasConflict(t.users, f.username, f.email)
    ensures WellFormed(Enrol(t, f, hash))
  {
    var t' := Enrol(t, f, hash);
    var n := |t.users|;
    forall i, j | 0 <= i < j < |t'.users|
      ensures t'.users[i].id != t'.users[j].id
      ensures t'.users[i].username != t'.users[j].username
      ensures t'.users[i].email != t'.users[j].email
    {
      if j == n {
        assert t'.users[i] == t.users[i];
      }
    }
    forall i | 0 <= i < |t'.userAchievements| ensures t'.userAchievements[i].userId < t'.nextUserId {
      if i >= |t.userAchievements| {
        assert t'.userAchievements[i] == StarterRows(t.nextUserId, t.achievements)[i - |t.userAchievements|];
      }
    }
  }

  // ----- properties of login -----

  /** A login is refused with 400 exactly when the trimmed username or the
      password is empty, and with 401 exactly when no user has that username
      and the hash of that password. */
  lemma LoginStatuses(t: Tables, body: Body, hash: string -> string)
    ensures var resp := LoginOutcome(t, body, hash);
            var username := Strip(FieldOrEmpty(body.username));
            var password := FieldOrEmpty(body.password);
            && resp.status in {400, 401, 200}
            && (resp.status == 400 <==> username == "" || password == "")
            && (resp.status == 401 <==>
                  username != "" && password != ""
                  && forall i | 0 <= i < |t.users| ::
                       t.users[i].username != username || t.users[i].passwordHash != hash(password))
            && (resp.payload.Success() <==> resp.status == 200)
  {
    var username := Strip(FieldOrEmpty(body.username));
    var password := FieldOrEmpty(body.password);
    if username == "" || password == "" {
      assert LoginOutcome(t, body, hash) == Response(400, ErrorMessage(MissingCredentials));
    } else if FindAccount(t.users, username, hash(password)).None? {
      assert LoginOutcome(t, body, hash) == Response(401, ErrorMessage(WrongCredentials));
    } else {
      assert LoginOutcome(t, body, hash).status == 200;
      assert LoginOutcome(t, body, hash).payload.LoggedIn?;
    }
  }

  /** In well-formed tables a successful login answers for the one user with
      that username, and its profile has no empty name and no zero level. */
  lemma LoginFindsTheUser(t: Tables, body: Body, hash: string -> string, i: nat)
    requires WellFormed(t)
    requires i < |t.users|
    requires t.users[i].username == Strip(FieldOrEmpty(body.username)) != ""
    requires t.users[i].passwordHash == hash(FieldOrEmpty(body.password))
    requires FieldOrEmpty(body.password) != ""
    ensures var resp := LoginOutcome(t, body, hash);
            && resp.status == 200
            && resp.payload.LoggedIn?
            && resp.payload.user == UserInfo(t.users[i].id, t.users[i].username, t.users[i].email)
            && resp.payload.profile.characterName != ""
            && resp.payload.profile.level != 0
  {
    var u := FindAccount(t.users, t.users[i].username, t.users[i].passwordHash);
    assert u.Some?;
    var j :| 0 <= j < |t.users| && t.users[j] == u.value;
    assert j == i;
  }

  /** The achievements query distributes over appended rows. */
  lemma {:induction false} AchievementsOfAppend(
    rows: seq<UserAchievement>, more: seq<UserAchievement>, catalog: seq<Achievement>, userId: nat)
    ensures AchievementsOf(rows + more, catalog, userId)
            == AchievementsOf(rows, catalog, userId) + AchievementsOf(more, catalog, userId)
    decreases |more|
  {
    if more == [] {
      assert rows + more == rows;
    } else {
      var init := more[..|more| - 1];
      var last := more[|more| - 1];
      assert more == init + [last];
      assert rows + more == (rows + init) + [last];
      AchievementsOfSnoc(rows + init, last, catalog, userId);
      AchievementsOfSnoc(init, last, catalog, userId);
      AchievementsOfAppend(rows, init, catalog, userId);
    }
  }

  /** One more row adds its own join, at the end. */
  lemma AchievementsOfSnoc(rows: seq<UserAchievement>, row: UserAchievement, catalog: seq<Achievement>, userId: nat)
    ensures AchievementsOf(rows + [row], catalog, userId)
            == AchievementsOf(rows, catalog, userId) + (if row.userId == userId then JoinRow(row, catalog) else [])
  {
    assert (rows + [row])[..|rows|] == rows;
  }

  /** Rows of other users contribute nothing. */
  lemma {:induction false} AchievementsOfOthers(rows: seq<UserAchievement>, catalog: seq<Achievement>, userId: nat)
    requires forall i | 0 <= i < |rows| :: rows[i].userId != userId
    ensures AchievementsOf(rows, catalog, userId) == []
    decreases |rows|
  {
    if rows != [] {
      AchievementsOfOthers(rows[..|rows| - 1], catalog, userId);
    }
  }

  /** With distinct catalog ids, a row naming a catalog entry joins with that
      entry alone. */
  lemma {:induction false} JoinRowFindsEntry(ua: UserAchievement, catalog: seq<Achievement>, k: nat)
    requires AchievementIdsDistinct(catalog)
    requires k < |catalog| && catalog[k].id == ua.achievementId
    ensures JoinRow(ua, catalog) == [AchievementViewOf(catalog[k], ua)]
    decreases |catalog|
  {
    if k == 0 {
      JoinRowMissesEntry(ua, catalog[1..]);
    } else {
      assert catalog[0].id != catalog[k].id;
      JoinRowFindsEntry(ua, catalog[1..], k - 1);
    }
  }

  lemma {:induction false} JoinRowMissesEntry(ua: UserAchievement, catalog: seq<Achievement>)
    requires forall i | 0 <= i < |catalog| :: catalog[i].id != ua.achievementId
    ensures JoinRow(ua, catalog) == []
    decreases |catalog|
  {
    if catalog != [] {
      JoinRowMissesEntry(ua, catalog[1..]);
    }
  }

  /** Each catalog entry as a new user sees it: not yet completed, no progress. */
  function StarterViews(catalog: seq<Achievement>): seq<AchievementView>
  {
    seq(|catalog|, k requires 0 <= k < |catalog| =>
      AchievementViewOf(catalog[k], UserAchievement(0, catalog[k].id, None, None)))
  }

  /** The rows a registration inserts read back as the whole catalog, in order. */
  lemma {:induction false} StarterRowsReadBack(userId: nat, catalog: seq<Achievement>, n: nat)
    requires AchievementIdsDistinct(catalog)
    requires n <= |catalog|
    ensures AchievementsOf(StarterRows(userId, catalog[..n]), catalog, userId) == StarterViews(catalog)[..n]
    decreases n
  {
    if n > 0 {
      var rows := StarterRows(userId, catalog[..n]);
      assert rows[..|rows| - 1] == StarterRows(userId, catalog[..n - 1]);
      assert rows[|rows| - 1] == StarterRow(userId, catalog[n - 1]);
      StarterRowsReadBack(userId, catalog, n - 1);
      JoinRowFindsEntry(StarterRow(userId, catalog[n - 1]), catalog, n - 1);
      assert StarterViews(catalog)[..n] == StarterViews(catalog)[..n - 1] + [StarterViews(catalog)[n - 1]];
    }
  }

  /** Register, then log in with the same body: the login succeeds for the
      new user, with the default profile (level 1, every count 0, character
      username + "_Character") and every catalog achievement, none completed. */
  lemma RegisterThenLogin(t: Tables, body: Body, hash: string -> string)
    requires WellFormed(t)
    requires RegisterOutcome(t, body, hash).0.status == 201
    ensures var t' := RegisterOutcome(t, body, hash).1;
            var f := RegistrationFields(body);
            LoginOutcome(t', body, hash)
            == Response(200, LoggedIn(
                 UserInfo(t.nextUserId, f.username, f.email),
                 ProfileView(f.username + "_Character", 1, 0, 0, 0, 0, 0, 0),
                 StarterViews(t.achievements)))
  {
    var f := RegistrationFields(body);
    var userId := t.nextUserId;
    var newUser := User(userId, f.username, f.email, hash(f.password));
    var newProfile := NewProfile(userId, DefaultCharacterName(f.username));
    var rows := StarterRows(userId, t.achievements);
    assert CheckRegistration(f).None? && !HasConflict(t.users, f.username, f.email);
    var t' := Enrol(t, f, hash);
    assert RegisterOutcome(t, body, hash).1 == t';
    assert f.username != "" && f.password != "";
    // the account lookup finds the new user: no older user has its username
    FindAccountAppend(t.users, newUser);
    // the profile lookup finds the new profile: older ones belong to older ids
    ProfileOfAppend(t.profiles, newProfile);
    NewProfileView(userId, f.username);
    // the achievements read back as the catalog
    AchievementsOfAppend(t.userAchievements, rows, t.achievements, userId);
    AchievementsOfOthers(t.userAchievements, t.achievements, userId);
    assert t.achievements[..|t.achievements|] == t.achievements;
    StarterRowsReadBack(userId, t.achievements, |t.achievements|);
    assert StarterViews(t.achievements)[..|t.achievements|] == StarterViews(t.achievements);
    var achievements := AchievementsOf(t'.userAchievements, t'.achievements, userId);
    assert achievements == StarterViews(t.achievements);
    assert Strip(FieldOrEmpty(body.username)) == f.username;
    assert FieldOrEmpty(body.password) == f.password;
    assert FindAccount(t'.users, f.username, hash(f.password)) == Some(newUser);
    assert ProfileOf(t'.profiles, userId) == newProfile;
    assert LoginOutcome(t', body, hash)
        == Response(200, LoggedIn(UserInfo(userId, f.username, f.email),
                                  ProfileViewOf(f.username, newProfile), achievements));
  }

  /** A freshly inserted profile reads back with every default. */
  lemma NewProfileView(userId: nat, username: string)
    ensures ProfileViewOf(username, NewProfile(userId, DefaultCharacterName(username)))
            == ProfileView(username + "_Character", 1, 0, 0, 0, 0, 0, 0)
  {
  }

  lemma FindAccountAppend(users: seq<User>, u: User)
    requires forall i | 0 <= i < |users| :: users[i].username != u.username
    ensures FindAccount(users + [u], u.username, u.passwordHash) == Some(u)
  {
    var r := FindAccount(users + [u], u.username, u.passwordHash);
    assert (users + [u])[|users|] == u;
  }

  lemma ProfileOfAppend(profiles: seq<Profile>, p: Profile)
    requires forall i | 0 <= i < |profiles| :: profiles[i].userId != p.userId
    ensures ProfileOf(profiles + [p], p.userId) == p
  {
    var r := ProfileOf(profiles + [p], p.userId);
    assert (profiles + [p])[|profiles|] == p;
  }
}
