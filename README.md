# MTA RP companion site: view state and authentication, in Dafny

This project models the two pieces of the role-play server's companion site
that make decisions.

**The front-end page component `Index`** (`src/pages/Index.tsx`) holds three
pieces of state: the active tab (home, register, profile, stats), a logged-in
flag and a two-field login form. Tab buttons, the two login inputs and the
login submit change that state. Four independent render conditions pick the
section on screen. Module `ViewState` models this:

- the `State` value and its `Step` function, one case per event handler;
- the rendering gates `VisibleSections`, `LoginFormVisible` and `NavTabs`;
- the class `Controller`, whose methods are the handlers; each method's
  postcondition ties the new state to `Step` of the old one;
- lemmas over runs of events, assuming each event comes from a control that
  is on screen. They show that the logged-in flag is never reset, that the
  profile tab is only reached when logged in, that every reachable state
  shows exactly one section, and that the form is frozen once logged in.

**The authentication endpoint `handler`** (`backend/auth/index.py`) handles
four kinds of request:

- a CORS pre-flight request (OPTIONS);
- any request when the database URL is missing;
- POST with action `register`, which validates, checks for duplicates and
  inserts a user, a profile and one row per achievement;
- POST with action `login`, which looks up the user by trimmed username and
  password hash and fills in default profile values.

The database is modelled as in-memory tables (`AuthStore.Tables`). The
password hash is a function parameter `hash`, standing for SHA-256. The
modules are:

- `AuthValidation`: Python's `strip` and `lower`, `validate_username`, and
  the `validate_email` regular expression. The regex is hand-coded and
  proved equal to the pattern's language.
- `AuthApi`: request and response shapes.
- `AuthStore`: the tables and the outcome functions of the two actions,
  with their properties. This includes a round trip: a successful
  registration followed by a login with the same body logs that user in.
- `AuthHandler`: the dispatch function and the class `Database`. Its
  `Register` method runs the per-achievement insert loop. `Register` and
  `Handle` are proved against the outcome functions.

`handleLogin` makes no network call: it checks that both fields are
non-empty, sets the flag and switches to the profile tab; with an empty
field it does nothing. The page keeps no session and has no way to log out,
so the front end and the endpoint are modelled separately.

Python's `re` `$` also matches just before a final line feed, so
`validate_email("a@b.cc\n")` holds (`TrailingLineFeedAccepted`). Registration
strips the email first, so there it checks exactly the pattern
(`StrippedEmailMatchesPattern`).

## Model

| member | source | states |
|---|---|---|
| `ViewState.Step` | src/pages/Index.tsx:35-188 | one case per handler: a tab button (53-86) sets the tab, the inputs (177, 188) replace one field, the submit (35-41) logs in when both fields are non-empty; its properties are stated by `LoggedInStaysLoggedIn`, `RunKeepsProfileTabNeedsLogin`, `LoginFormFrozenAfterLogin` and the `Controller` methods below |
| `ViewState.Controller.constructor` | src/pages/Index.tsx:31-33 | initial state is tab home, logged out, login form with empty username and password |
| `ViewState.Controller.ClickTab` | src/pages/Index.tsx:53-106 | a tab button (53-86) or the hero "start playing" button (105-106) sets the active tab to its value, unguarded, and keeps the flag and the form |
| `ViewState.Controller.ChangeUsername` | src/pages/Index.tsx:177 | editing the username replaces only the username; password, tab and flag are kept |
| `ViewState.Controller.ChangePassword` | src/pages/Index.tsx:188 | editing the password replaces only the password; username, tab and flag are kept |
| `ViewState.Controller.HandleLogin` | src/pages/Index.tsx:35-41 | with both fields non-empty the flag becomes true and the tab profile; otherwise tab and flag are unchanged; the form is never changed |
| `ViewState.VisibleSections` | src/pages/Index.tsx:93-402 | the section set is exactly those whose condition holds; at most one is visible; profile is visible iff tab is profile and logged in; nothing is visible iff tab is profile while logged out |
| `ViewState.LoginFormVisible` | src/pages/Index.tsx:162 | the login card is shown iff tab is home and logged out, and only inside the visible home section |
| `ViewState.NavTabs` | src/pages/Index.tsx:53-86 | the header offers the profile button iff logged in; home, register and stats always |
| `ViewState.LoggedInStaysLoggedIn` | src/pages/Index.tsx:38 | once logged in, every sequence of events leaves the flag true |
| `ViewState.RunKeepsProfileTabNeedsLogin` | src/pages/Index.tsx:69-78 | along events from on-screen controls, "tab is profile implies logged in" is preserved |
| `ViewState.ReachableShowsExactlyOneSection` | src/pages/Index.tsx:93-402 | every state reached from the initial one through on-screen controls shows exactly one section |
| `ViewState.LoginFormFrozenAfterLogin` | src/pages/Index.tsx:162-200 | once logged in, events from on-screen controls no longer change the login form |
| `AuthValidation.TrimStart` | backend/auth/index.py:89 | leading whitespace is dropped: the result is a suffix, everything dropped is whitespace, the result does not start with whitespace |
| `AuthValidation.TrimEnd` | backend/auth/index.py:89 | trailing whitespace is dropped: the result is a prefix, everything dropped is whitespace, the result does not end with whitespace |
| `AuthValidation.Strip` | backend/auth/index.py:89-90 | the result is the slice of the input with only whitespace before and after it; neither of its ends is whitespace; it is empty iff the input is all whitespace |
| `AuthValidation.Lower` | backend/auth/index.py:90 | length is kept, no upper-case letter remains, every other character is unchanged |
| `AuthValidation.RemoveUnderscores` | backend/auth/index.py:81 | the result holds exactly the characters of the input other than '_' |
| `AuthValidation.ValidateUsername` | backend/auth/index.py:79-81 | `validate_username` as written (length, then `replace('_', '').isalnum()`); characterised independently by `ValidateUsernameIff` and `UnderscoresOnlyRejected` |
| `AuthValidation.ValidateUsernameIff` | backend/auth/index.py:79-81 | a username is valid iff it has 3 to 50 characters, all letters, digits or '_', and not all '_' |
| `AuthValidation.UnderscoresOnlyRejected` | backend/auth/index.py:81 | "___" is rejected |
| `AuthValidation.IndexOf` | backend/auth/index.py:76 | the first index of a character, or none iff absent |
| `AuthValidation.LastIndexOf` | backend/auth/index.py:76 | the last index of a character, or none iff absent |
| `AuthValidation.EmailShapeIff` | backend/auth/index.py:74-77 | the hand-coded scan accepts exactly the strings of local-part '@' domain '.' two-or-more-letters |
| `AuthValidation.ValidateEmail` | backend/auth/index.py:74-77 | `validate_email` with `re.match` and Python's `$`; related to the pattern's language by `EmailShapeIff`, `ValidateEmailIff`, `TrailingLineFeedAccepted` and `StrippedEmailMatchesPattern` |
| `AuthValidation.ValidateEmailIff` | backend/auth/index.py:74-77 | `validate_email` holds iff the pattern covers the whole string, or the whole string minus a final line feed |
| `AuthValidation.TrailingLineFeedAccepted` | backend/auth/index.py:76-77 | "a@b.cc\n" passes although it is not in the pattern's language |
| `AuthValidation.StrippedEmailMatchesPattern` | backend/auth/index.py:90 | on a stripped, lower-cased email, validation is exactly membership in the pattern |
| `AuthStore.CheckRegistration` | backend/auth/index.py:94-124 | each 400 error holds iff every earlier check passed and its own failed; no error iff username and email are valid and the password has at least 6 characters |
| `AuthStore.RegisterOutcome` | backend/auth/index.py:87-192 | `handle_register` on the tables: checks, duplicate check, inserts; its statuses, inserts, invariant and round trip are stated by `RegisterResponses`, `RegisterCreates`, `RegisterKeepsWellFormed` and `RegisterThenLogin` |
| `AuthStore.Enrol` | backend/auth/index.py:147-174 | the three inserts under the next user id; `EnrolKeepsWellFormed` and `RegisterCreates` state what they add and keep |
| `AuthStore.RegisterResponses` | backend/auth/index.py:94-145 | 400 iff a check fails, with that check's error; 409 iff the checks pass and the username or email is taken; otherwise 201; only 201 changes tables or reports success |
| `AuthStore.RegisterCreates` | backend/auth/index.py:147-192 | on 201: exactly one new user with the password's hash, one profile named username + "_Character", one row per catalog achievement; the response carries the new id, username and email |
| `AuthStore.RegisterKeepsWellFormed` | backend/auth/index.py:133-174 | registration keeps ids, usernames and emails unique and every row owned by an issued id |
| `AuthStore.EnrolKeepsWellFormed` | backend/auth/index.py:147-174 | inserting a user with an unused username and email under the next id keeps the tables well formed |
| `AuthStore.FindAccount` | backend/auth/index.py:227-237 | returns a user with that username and hash, or none iff there is no such user |
| `AuthStore.ProfileOf` | backend/auth/index.py:229-233 | the left join returns the user's profile row when there is one, else an all-NULL row |
| `AuthStore.ProfileViewOf` | backend/auth/index.py:269-278 | a NULL or 0 level becomes 1, any other level is kept; each of the seven counts is 0 when NULL and the stored value otherwise; a NULL or empty character name becomes username + "_Character", a non-empty one is kept; so the level is never 0 and the name never empty |
| `AuthStore.AchievementsOf` | backend/auth/index.py:248-257 | the achievements query (join on the catalog, rows of that user only); `AchievementsOfAppend`, `AchievementsOfOthers`, `JoinRowFindsEntry` and `StarterRowsReadBack` state how it reads rows back |
| `AuthStore.AchievementsOfMembers` | backend/auth/index.py:248-257 | on any tables, a view is in the query's result iff it joins a row of that user with a catalog entry whose id is the row's achievement id |
| `AuthStore.JoinRowMembers` | backend/auth/index.py:251-252 | a view is in the join of one row iff it pairs the row with a catalog entry of its achievement id |
| `AuthStore.LoginOutcome` | backend/auth/index.py:207-299 | `handle_login` on the tables; its statuses and results are stated by `LoginStatuses`, `LoginFindsTheUser` and `RegisterThenLogin` |
| `AuthStore.LoginStatuses` | backend/auth/index.py:209-245 | 400 iff trimmed username or password is empty; 401 iff no user has that username and hash; otherwise 200, the only status reporting success |
| `AuthStore.LoginFindsTheUser` | backend/auth/index.py:226-278 | in well-formed tables, correct credentials log in the one user with that username, with a non-empty character name and a non-zero level |
| `AuthStore.JoinRowFindsEntry` | backend/auth/index.py:248-254 | with distinct catalog ids, a user-achievement row joins with exactly its catalog entry |
| `AuthStore.StarterRowsReadBack` | backend/auth/index.py:166-174 | the rows registration inserts read back through the achievements query as the whole catalog |
| `AuthStore.RegisterThenLogin` | backend/auth/index.py:147-291 | after a 201 registration, a login with the same body gives 200 for the new user: level 1, zero counts, character username + "_Character", every catalog achievement |
| `AuthHandler.RouteOf` | backend/auth/index.py:16-64 | OPTIONS gives 200 whatever the configuration; otherwise no database URL gives 500; POST register/login goes to its handler, any other action 400; any other method 405 |
| `AuthHandler.HandleOutcome` | backend/auth/index.py:9-64 | `handler` on the tables: dispatch, then the chosen action; stated by `OptionsAlwaysSucceeds`, `OnlyRegistrationWrites`, `HandleStatuses` and `HandleKeepsWellFormed` |
| `AuthHandler.OptionsAlwaysSucceeds` | backend/auth/index.py:19-30 | a pre-flight request answers 200 with an empty body and leaves the tables alone |
| `AuthHandler.OnlyRegistrationWrites` | backend/auth/index.py:42-64 | the tables change only through a register request answered 201 |
| `AuthHandler.HandleStatuses` | backend/auth/index.py:9-64 | the handler answers only 200, 201, 400, 401, 405, 409 or 500; success only with 200 or 201 on a POST |
| `AuthHandler.HandleKeepsWellFormed` | backend/auth/index.py:9-64 | every request keeps the tables well formed |
| `AuthHandler.Database.Register` | backend/auth/index.py:87-192 | the response and new tables are those of the registration outcome, and the table invariant is kept |
| `AuthHandler.Database.InsertStarterAchievements` | backend/auth/index.py:166-174 | the loop appends one row per catalog entry, in order, and changes nothing else |
| `AuthHandler.Database.Handle` | backend/auth/index.py:9-64 | the response and new tables are those of the dispatched handler, and the table invariant is kept |

## Left out

- Layout and presentation: JSX markup, CSS classes, icons, the card, tab,
  badge and progress components, and the active-button highlight classes.
  They decide nothing.
- `mockPlayerData` and the fixed server statistics. They are constants with
  no behaviour.
- The front-end registration form and the "watch trailer" button. The form's
  inputs are uncontrolled and neither button has a handler, so there is no
  state to model.
- `e.preventDefault()` and React's deferred state updates. `HandleLogin`
  applies both setter calls at once, which is the state React renders next.
- `hash_password`'s SHA-256. It is a call into a library and appears as the
  parameter `hash`.
- psycopg2 connections, cursors, commit, rollback and close, and the SQL
  text. This is I/O; the model uses in-memory tables. Registration is
  atomic in the model: a `psycopg2.Error` before the commit at
  backend/auth/index.py:176 rolls everything back.
- AuthStore.RegisterOutcome: assumes the database fills `users.created_at`
  on insert (a column default). The users INSERT does not set it, and the
  201 body calls `user['created_at'].isoformat()` after the commit. Were the
  column NULL, that call would raise an `AttributeError`, which is not a
  `psycopg2.Error`: the generic handler would answer 500 with the user,
  profile and achievement rows already committed. `RegisterResponses` and
  `AuthHandler.OnlyRegistrationWrites` hold under that assumption.
- The 500 answers from database errors and from the generic `except`. These
  come from runtime failures of foreign code: an unparsable body, a body or
  field of the wrong JSON type (which makes `.strip()` raise), a lost
  connection.
- JSON serialisation, headers, `isBase64Encoded`, the `message` texts and
  `created_at` timestamps. Responses carry a status code and a payload
  whose errors are tags, one per distinct message.
- The database schema: column defaults, uniqueness constraints, column
  types. The schema is not part of this model. Apart from `users.created_at`,
  the profile and user-achievement columns an INSERT leaves out are NULL in
  the model. Numbers are unbounded integers.
- Concurrent requests, including two registrations racing between the
  duplicate check and the insert. The model handles requests one at a time.
- AuthStore.AchievementsOf: does not model the `ORDER BY a.id` of the login
  achievements query; it returns rows in user-achievement table order. So
  `RegisterThenLogin` gives the catalog in catalog order, which is the
  query's order when the catalog is stored by id. Sorting is left out
  because the order decides nothing in the endpoint, and the page never
  reads the list: `Index.tsx` makes no call to the endpoint.
- AuthStore.FindAccount and AuthStore.ProfileOf: take the first matching
  row in table order. `fetchone()` on a query without ORDER BY may return
  any matching row. For users this makes no difference in well-formed
  tables, where usernames are unique. For profiles it does when a user has
  several profile rows: nothing in the model or the source prevents that,
  although registration only ever inserts one.
- AuthStore.RegisterThenLogin: assumes the profile and user-achievement
  columns that registration leaves out read back as NULL. With other schema
  defaults, level and counts would be those defaults after login's `or`.
- AuthValidation.IsSpace: only the ASCII characters that Python's
  `str.isspace` accepts; non-ASCII whitespace is not stripped.
- AuthValidation.Lower: ASCII only; non-ASCII letters are not lower-cased.
  Python can lengthen some of them.
- AuthValidation.ValidateUsername: `isalnum` is ASCII-only here. Python also
  accepts non-ASCII letters and digits.
