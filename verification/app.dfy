/** The application state of the theme-toggle / mock-login page.

    The page keeps two pieces of shared state (the theme and the logged-in
    user) and the login form's local drafts and error message. Here they are
    one immutable record, and every UI event is one atomic transition on it:
    events are handled one at a time, so a handler's read of the current
    state is just the state it is applied to.
 */
module App {
  import opened Text
  import opened Email

  datatype Option<T> = None | Some(value: T)

  datatype Theme = Light | Dark

  /** The record `login` stores: the name and email exactly as typed. */
  datatype User = User(name: string, email: string)

  /** `error == ""` means the form shows no error. */
  datatype State = State(
    theme: Theme,
    user: Option<User>,
    draftName: string,
    draftEmail: string,
    error: string)

  /** What a visitor can do on the page. */
  datatype Event =
    | ClickToggle             // the theme button
    | ClickLogout             // the profile card's logout button
    | TypeName(text: string)  // the name input's new value
    | TypeEmail(text: string) // the email input's new value
    | ClickLogIn              // the form's submit button

  const RequiredMessage: string := "Both fields are required."
  const InvalidEmailMessage: string := "Please enter a valid email address."

  /** The page as first shown: light theme, nobody logged in, an empty form. */
  const Start: State := State(Light, None, "", "", "")

  // ---------------------------------------------------------------------
  // Theme store

  /** The other theme. */
  function Flip(t: Theme): (r: Theme)
    ensures r != t
  {
    if t == Light then Dark else Light
  }

  /** `toggleTheme`: switches to the other theme and touches nothing else. */
  function ToggleTheme(s: State): (r: State)
    ensures r.theme != s.theme
    ensures r.(theme := s.theme) == s
  {
    s.(theme := Flip(s.theme))
  }

  // ---------------------------------------------------------------------
  // User store

  /** `login`: stores the given pair as the user, unconditionally and
      untrimmed; the store itself validates nothing. */
  function Login(s: State, name: string, email: string): (r: State)
    ensures r.user.Some? && r.user.value.name == name && r.user.value.email == email
    ensures r.(user := s.user) == s
  {
    s.(user := Some(User(name, email)))
  }

  /** `logout`: nobody is logged in afterwards, whoever was before. */
  function Logout(s: State): (r: State)
    ensures r.user.None?
    ensures r.(user := s.user) == s
  {
    s.(user := None)
  }

  // ---------------------------------------------------------------------
  // Login form

  /** The name input's change handler. */
  function SetName(s: State, text: string): (r: State)
    ensures r.draftName == text
    ensures r.(draftName := s.draftName) == s
  {
    s.(draftName := text)
  }

  /** The email input's change handler. */
  function SetEmail(s: State, text: string): (r: State)
    ensures r.draftEmail == text
    ensures r.(draftEmail := s.draftEmail) == s
  {
    s.(draftEmail := text)
  }

  /** `handleLogin`: a blank field is reported first, then a malformed
      address; otherwise the drafts, exactly as typed, are logged in and the
      form is cleared. The contract is stated in terms of the structural
      descriptions (`AllSpace`, `HasShape`) rather than the checks the
      handler runs. */
  function HandleLogin(s: State): (r: State)
    ensures AllSpace(s.draftName) || AllSpace(s.draftEmail) ==>
              r == s.(error := RequiredMessage)
    ensures !AllSpace(s.draftName) && !AllSpace(s.draftEmail) && !HasShape(s.draftEmail) ==>
              r == s.(error := InvalidEmailMessage)
    ensures !AllSpace(s.draftName) && HasShape(s.draftEmail) ==>
              && r.user == Some(User(s.draftName, s.draftEmail))
              && r.draftName == "" && r.draftEmail == "" && r.error == ""
              && r.theme == s.theme
  {
    PatternIffShape(s.draftEmail);
    ValidEmailNotBlank(s.draftEmail);
    if IsBlank(s.draftName) || IsBlank(s.draftEmail) then
      s.(error := RequiredMessage)
    else if !IsValidEmail(s.draftEmail) then
      s.(error := InvalidEmailMessage)
    else
      var t := Login(s, s.draftName, s.draftEmail);
      t.(draftName := "", draftEmail := "", error := "")
  }

  // ---------------------------------------------------------------------
  // The page as a whole

  /** Which controls are on screen: the theme button always; the logout
      button only on the profile card, shown while someone is logged in;
      the inputs and the submit button only while nobody is. */
  predicate Enabled(s: State, e: Event) {
    match e
    case ClickToggle => true
    case ClickLogout => s.user.Some?
    case TypeName(_) => s.user.None?
    case TypeEmail(_) => s.user.None?
    case ClickLogIn => s.user.None?
  }

  /** The handler each event runs. Only the theme button changes the theme,
      and only logout and a successful submit change the user. */
  function Step(s: State, e: Event): (r: State)
    ensures e != ClickToggle ==> r.theme == s.theme
    ensures r.user != s.user ==> e == ClickLogout || e == ClickLogIn
  {
    match e
    case ClickToggle => ToggleTheme(s)
    case ClickLogout => Logout(s)
    case TypeName(text) => SetName(s, text)
    case TypeEmail(text) => SetEmail(s, text)
    case ClickLogIn => HandleLogin(s)
  }

  /** Replays a sequence of events; `None` when one of them is on a control
      that is not on screen at that point. */
  function Run(s: State, es: seq<Event>): Option<State>
    decreases |es|
  {
    if es == [] then Some(s)
    else if !Enabled(s, es[0]) then None
    else Run(Step(s, es[0]), es[1..])
  }

  /** Replaying `a + b` is replaying `a`, then `b` from where `a` ended. */
  lemma {:induction false} RunAppend(s: State, a: seq<Event>, b: seq<Event>)
    ensures Run(s, a + b) == if Run(s, a).Some? then Run(Run(s, a).value, b) else None
    decreases |a|
  {
    if a != [] {
      assert (a + b)[0] == a[0] && (a + b)[1..] == a[1..] + b;
      if Enabled(s, a[0]) {
        RunAppend(Step(s, a[0]), a[1..], b);
      }
    } else {
      assert a + b == b;
    }
  }

  /** `n` clicks on one control. */
  function Repeat(e: Event, n: nat): (es: seq<Event>)
    ensures |es| == n && forall k | 0 <= k < n :: es[k] == e
  {
    if n == 0 then [] else [e] + Repeat(e, n - 1)
  }

  /** What holds of every state the page can reach: while someone is logged
      in, the (hidden) form is empty, and the stored user passed the form's
      checks — a non-blank name and an address of the accepted shape. */
  predicate Invariant(s: State) {
    s.user.Some? ==>
      && s.draftName == "" && s.draftEmail == "" && s.error == ""
      && !AllSpace(s.user.value.name) && HasShape(s.user.value.email)
  }

  // ---------------------------------------------------------------------
  // Properties

  /** Two toggles restore the theme. */
  lemma ToggleTwiceIsIdentity(s: State)
    ensures ToggleTheme(ToggleTheme(s)) == s
  {
  }

  /** `n` toggles leave the theme as it was when `n` is even and flipped
      when `n` is odd, and change nothing else. */
  lemma {:induction false} TogglesAlternate(s: State, n: nat)
    ensures Run(s, Repeat(ClickToggle, n)) ==
              Some(s.(theme := if n % 2 == 0 then s.theme else Flip(s.theme)))
    decreases n
  {
    if n > 0 {
      var es := Repeat(ClickToggle, n);
      assert es[0] == ClickToggle && es[1..] == Repeat(ClickToggle, n - 1);
      TogglesAlternate(ToggleTheme(s), n - 1);
    }
  }

  /** From the first render, the theme strictly alternates Light, Dark,
      Light, ... with the number of toggles. */
  lemma ThemeFromStart(n: nat)
    ensures Run(Start, Repeat(ClickToggle, n)).Some?
    ensures Run(Start, Repeat(ClickToggle, n)).value.theme == (if n % 2 == 0 then Light else Dark)
  {
    TogglesAlternate(Start, n);
  }

  /** Logging out twice is the same as logging out once. */
  lemma LogoutIdempotent(s: State)
    ensures Logout(Logout(s)) == Logout(s)
  {
  }

  /** Every event the page offers preserves the invariant. */
  lemma StepPreservesInvariant(s: State, e: Event)
    requires Invariant(s) && Enabled(s, e)
    ensures Invariant(Step(s, e))
  {
  }

  /** Every reachable state satisfies the invariant. */
  lemma {:induction false} RunPreservesInvariant(s: State, es: seq<Event>)
    requires Invariant(s)
    ensures Run(s, es).Some? ==> Invariant(Run(s, es).value)
    decreases |es|
  {
    if es != [] && Enabled(s, es[0]) {
      StepPreservesInvariant(s, es[0]);
      RunPreservesInvariant(Step(s, es[0]), es[1..]);
    }
  }

  /** Every state reachable from the first render satisfies the invariant:
      whoever is logged in passed the form's checks. */
  lemma ReachableInvariant(es: seq<Event>)
    ensures Run(Start, es).Some? ==> Invariant(Run(Start, es).value)
  {
    RunPreservesInvariant(Start, es);
  }

  /** Once someone is logged in, no sequence of events without a logout
      changes who it is, and the form (with its submit button) stays off
      screen throughout: a second submit is impossible until logout. */
  lemma {:induction false} SessionHoldsUntilLogout(s: State, es: seq<Event>)
    requires s.user.Some?
    requires forall k | 0 <= k < |es| :: es[k] != ClickLogout
    ensures Run(s, es).Some? ==>
              Run(s, es).value.user == s.user && !Enabled(Run(s, es).value, ClickLogIn)
    decreases |es|
  {
    if es != [] && Enabled(s, es[0]) {
      SessionHoldsUntilLogout(Step(s, es[0]), es[1..]);
    }
  }

  /** After a logout from any reachable state, the form is back on screen,
      empty and without an error. */
  lemma LogoutReopensForm(s: State)
    requires Invariant(s) && Enabled(s, ClickLogout)
    ensures var t := Step(s, ClickLogout);
            t.user.None? && Enabled(t, ClickLogIn)
            && t.draftName == "" && t.draftEmail == "" && t.error == ""
  {
  }
}
