/** The view state of the single-page front end (`Index`): which tab is active,
    whether the visitor has logged in, and the two-field login form buffer; the
    events that change them; and the rendering gates that decide which section
    of the page is on screen. */
module ViewState {

  /** The values `activeTab` takes: the four tab buttons' arguments. */
  datatype Tab = Home | Register | Profile | Stats

  /** The login form buffer `{ username, password }`. */
  datatype LoginForm = LoginForm(username: string, password: string)

  /** The whole component state: `activeTab`, `isLoggedIn`, `loginForm`. */
  datatype State = State(activeTab: Tab, isLoggedIn: bool, loginForm: LoginForm)

  /** The four top-level sections rendered under `<main>`. */
  datatype Section = HomeSection | RegisterSection | ProfileSection | StatsSection

  /** What the visitor can do: click a tab button, type into one of the two
      login inputs, or submit the login form. */
  datatype Event =
    | SelectTab(tab: Tab)
    | EditUsername(value: string)
    | EditPassword(value: string)
    | SubmitLogin

  /** The `useState` initial values. */
  const Initial: State := State(Home, false, LoginForm("", ""))

  /** The guard of `handleLogin`: both strings are truthy, i.e. non-empty. */
  predicate CanLogIn(form: LoginForm)
  {
    form.username != "" && form.password != ""
  }

  /** The state after one event: the setter calls each handler makes. */
  function Step(s: State, e: Event): State
  {
    match e
    case SelectTab(t) => s.(activeTab := t)
    case EditUsername(v) => s.(loginForm := s.loginForm.(username := v))
    case EditPassword(v) => s.(loginForm := s.loginForm.(password := v))
    case SubmitLogin =>
      if CanLogIn(s.loginForm) then s.(isLoggedIn := true, activeTab := Profile) else s
  }

  /** The state after a sequence of events, in order. */
  function Run(s: State, events: seq<Event>): State
    decreases |events|
  {
    if events == [] then s else Run(Step(s, events[0]), events[1..])
  }

  // ----- rendering gates -----

  /** Each top-level section's own render condition, one per `{cond && (...)}`. */
  predicate Shows(s: State, section: Section)
  {
    match section
    case HomeSection => s.activeTab == Home
    case RegisterSection => s.activeTab == Register
    case ProfileSection => s.activeTab == Profile && s.isLoggedIn
    case StatsSection => s.activeTab == Stats
  }

  /** The set of top-level sections on screen. The four conditions are
      evaluated independently, yet at most one of them holds; the only state
      that shows nothing is the profile tab while logged out. */
  function VisibleSections(s: State): (r: set<Section>)
    ensures forall section :: section in r <==> Shows(s, section)
    ensures |r| <= 1
    ensures ProfileSection in r <==> s.activeTab == Profile && s.isLoggedIn
    ensures r == {} <==> s.activeTab == Profile && !s.isLoggedIn
  {
    (if Shows(s, HomeSection) then {HomeSection} else {})
    + (if Shows(s, RegisterSection) then {RegisterSection} else {})
    + (if Shows(s, ProfileSection) then {ProfileSection} else {})
    + (if Shows(s, StatsSection) then {StatsSection} else {})
  }

  /** The login card is nested in the home section and gated on being logged out. */
  function LoginFormVisible(s: State): (r: bool)
    ensures r <==> s.activeTab == Home && !s.isLoggedIn
    ensures r ==> HomeSection in VisibleSections(s)
  {
    Shows(s, HomeSection) && !s.isLoggedIn
  }

  /** The tab buttons in the header, in order; the profile button is only
      rendered once logged in. */
  function NavTabs(isLoggedIn: bool): (r: seq<Tab>)
    ensures Profile in r <==> isLoggedIn
    ensures Home in r && Register in r && Stats in r
  {
    [Home, Register] + (if isLoggedIn then [Profile] else []) + [Stats]
  }

  /** An event can only come from a control that is on screen: a header tab
      button, the hero "start playing" button (register tab, home section
      only), or the login inputs and submit button (login card only). */
  predicate Enabled(s: State, e: Event)
  {
    match e
    case SelectTab(t) =>
      t in NavTabs(s.isLoggedIn) || (t == Register && Shows(s, HomeSection))
    case EditUsername(_) => LoginFormVisible(s)
    case EditPassword(_) => LoginFormVisible(s)
    case SubmitLogin => LoginFormVisible(s)
  }

  /** Every event of the sequence is enabled in the state it is applied to. */
  predicate ValidRun(s: State, events: seq<Event>)
    decreases |events|
  {
    events == [] || (Enabled(s, events[0]) && ValidRun(Step(s, events[0]), events[1..]))
  }

  /** The invariant of every state reachable through the rendered controls. */
  predicate ProfileTabNeedsLogin(s: State)
  {
    s.activeTab == Profile ==> s.isLoggedIn
  }

  // ----- properties -----

  /** Nothing ever resets the logged-in flag: the only setter call passes `true`. */
  lemma {:induction false} LoggedInStaysLoggedIn(s: State, events: seq<Event>)
    requires s.isLoggedIn
    ensures Run(s, events).isLoggedIn
    decreases |events|
  {
    if events != [] {
      LoggedInStaysLoggedIn(Step(s, events[0]), events[1..]);
    }
  }

  /** An enabled event keeps the profile tab behind the login. */
  lemma StepKeepsProfileTabNeedsLogin(s: State, e: Event)
    requires ProfileTabNeedsLogin(s) && Enabled(s, e)
    ensures ProfileTabNeedsLogin(Step(s, e))
  {
  }

  lemma {:induction false} RunKeepsProfileTabNeedsLogin(s: State, events: seq<Event>)
    requires ProfileTabNeedsLogin(s) && ValidRun(s, events)
    ensures ProfileTabNeedsLogin(Run(s, events))
    decreases |events|
  {
    if events != [] {
      StepKeepsProfileTabNeedsLogin(s, events[0]);
      RunKeepsProfileTabNeedsLogin(Step(s, events[0]), events[1..]);
    }
  }

  /** In every state reached from the initial one through the rendered
      controls, exactly one top-level section is on screen. */
  lemma ReachableShowsExactlyOneSection(events: seq<Event>)
    requires ValidRun(Initial, events)
    ensures |VisibleSections(Run(Initial, events))| == 1
  {
    RunKeepsProfileTabNeedsLogin(Initial, events);
    var s := Run(Initial, events);
    match s.activeTab
    case Home => assert HomeSection in VisibleSections(s);
    case Register => assert RegisterSection in VisibleSections(s);
    case Profile => assert ProfileSection in VisibleSections(s);
    case Stats => assert StatsSection in VisibleSections(s);
  }

  /** Once logged in, the login card is gone, so the form buffer can no
      longer change through the rendered controls. */
  lemma {:induction false} LoginFormFrozenAfterLogin(s: State, events: seq<Event>)
    requires s.isLoggedIn && ValidRun(s, events)
    ensures Run(s, events).loginForm == s.loginForm
    decreases |events|
  {
    if events != [] {
      LoginFormFrozenAfterLogin(Step(s, events[0]), events[1..]);
    }
  }

  /** The component itself: three pieces of state that the handlers update. */
  class Controller {
    var activeTab: Tab
    var isLoggedIn: bool
    var loginForm: LoginForm

    function Snapshot(): State
      reads this
    {
      State(activeTab, isLoggedIn, loginForm)
    }

    /** First render: home tab, logged out, empty form. */
    constructor ()
      ensures activeTab == Home && !isLoggedIn && loginForm == LoginForm("", "")
      ensures Snapshot() == Initial
    {
      activeTab := Home;
      isLoggedIn := false;
      loginForm := LoginForm("", "");
    }

    /** A tab button's `onClick`: `setActiveTab(tab)`, unguarded. */
    method ClickTab(tab: Tab)
      modifies this
      ensures activeTab == tab
      ensures isLoggedIn == old(isLoggedIn) && loginForm == old(loginForm)
      ensures Snapshot() == Step(old(Snapshot()), Event.SelectTab(tab))
    {
      activeTab := tab;
    }

    /** The username input's `onChange`: replaces the username, keeps the password. */
    method ChangeUsername(value: string)
      modifies this
      ensures loginForm == LoginForm(value, old(loginForm.password))
      ensures activeTab == old(activeTab) && isLoggedIn == old(isLoggedIn)
      ensures Snapshot() == Step(old(Snapshot()), EditUsername(value))
    {
      loginForm := LoginForm(value, loginForm.password);
    }

    /** The password input's `onChange`: replaces the password, keeps the username. */
    method ChangePassword(value: string)
      modifies this
      ensures loginForm == LoginForm(old(loginForm.username), value)
      ensures activeTab == old(activeTab) && isLoggedIn == old(isLoggedIn)
      ensures Snapshot() == Step(old(Snapshot()), EditPassword(value))
    {
      loginForm := LoginForm(loginForm.username, value);
    }

    /** `handleLogin`: with both fields non-empty, log in and open the profile
        tab; otherwise change nothing. The form is never cleared. */
    method HandleLogin()
      modifies this
      ensures CanLogIn(old(loginForm)) ==> isLoggedIn && activeTab == Profile
      ensures !CanLogIn(old(loginForm)) ==>
                activeTab == old(activeTab) && isLoggedIn == old(isLoggedIn)
      ensures loginForm == old(loginForm)
      ensures Snapshot() == Step(old(Snapshot()), SubmitLogin)
    {
      if loginForm.username != "" && loginForm.password != "" {
        isLoggedIn := true;
        activeTab := Profile;
      }
    }
  }
}
