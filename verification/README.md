# Theme toggle and mock login: the page's state machine in Dafny

The page (`src/App.jsx`) shows a theme button, a profile card and a login
form. It keeps two pieces of shared state — the theme (`light`/`dark`) and
the logged-in user (absent, or a name and email) — and the form keeps its
own draft name, draft email and error message. This project models all of
it as one immutable record, `App.State`, and every UI event as one atomic
transition, `App.Step`:

- the theme button runs `toggleTheme` (`App.ToggleTheme`);
- the profile card's logout button runs `logout` (`App.Logout`);
- the two inputs' change handlers overwrite one draft (`App.SetName`, `App.SetEmail`);
- the submit button runs `handleLogin` (`App.HandleLogin`), which rejects a
  blank field, then an address that fails the email pattern, and otherwise
  calls `login` (`App.Login`) with the drafts exactly as typed and clears the form.

Which controls exist at a given moment follows the render guards
(`App.Enabled`): the theme button always, the logout button only while
someone is logged in, the inputs and the submit button only while nobody is.
`App.Run` replays a sequence of events and yields `None` when an event hits
a control that is not on screen.

Files:

- `text.dfy` — module `Text`: ECMAScript white space (`IsSpace`, one predicate
  shared by `trim` and the pattern class `\s`), `TrimStart`, `TrimEnd`, `Trim`
  and the blank check `IsBlank`.
- `email.dfy` — module `Email`: the pattern `^[^\s@]+@[^\s@]+\.[^\s@]+$` read
  literally as a choice of split points (`IsValidEmail`, the source's
  `isValidEmail`), the structural description `HasShape` (no white space,
  exactly one `@` with something before it, a `.` strictly inside the part
  after it), and the proof that they agree.
- `app.dfy` — module `App`: the state record, the handlers, `Step`, `Enabled`,
  `Run`, the reachable-state invariant and the properties of the page.
- `scenarios.dfy` — module `Scenarios`: concrete submits, one per outcome.

Notes on the code that shape the model:

- `<Login />` stays mounted while a user is present and renders `null`
  (`src/App.jsx:97`, `src/App.jsx:122`), so its drafts and error persist
  across login and logout. They are cleared on success and nothing can edit
  them while the form is hidden, so after logout the form reappears empty
  (`App.LogoutReopensForm`).
- The pattern accepts any character other than white space and `@`,
  including non-ASCII characters; so does the model.
- `error == ""` means no error (`src/App.jsx:75`, `src/App.jsx:113`).

## Model

| member | source | states |
|---|---|---|
| Text.TrimStart | src/App.jsx:82 | the result is the suffix of the input after a run of white space, and does not start with white space |
| Text.TrimEnd | src/App.jsx:82 | the result is the prefix of the input before a run of white space, and does not end with white space |
| Text.Trim | src/App.jsx:82 | `trim()` is empty exactly when the input is white space only; a non-empty result neither starts nor ends with white space |
| Email.PatternGivesShape | src/App.jsx:78 | split points `a@b.c` of a pattern match give a string with no white space, a sole `@` after a non-empty part, and an inner `.` in the domain |
| Email.ShapeGivesPattern | src/App.jsx:78 | a sole `@` and an inner `.` in the domain of a white-space-free string are split points of a pattern match |
| Email.PatternIffShape | src/App.jsx:77-79 | `isValidEmail` accepts a string iff it has no white space, exactly one `@` with a non-empty part before it, and a `.` after the `@` that is neither the domain's first nor last character |
| Email.ValidEmailNotBlank | src/App.jsx:78 | every accepted address is non-blank after trimming (and at least five characters long) |
| App.Flip | src/App.jsx:8 | the toggled theme differs from the current one |
| App.ToggleTheme | src/App.jsx:8 | `toggleTheme` changes the theme and nothing else |
| App.Login | src/App.jsx:24-26 | `login` stores exactly the given name and email, without validation, and changes nothing else |
| App.Logout | src/App.jsx:27 | after `logout` nobody is logged in, whatever the prior state, and nothing else changes |
| App.SetName | src/App.jsx:103 | the name input's handler replaces exactly the draft name |
| App.SetEmail | src/App.jsx:110 | the email input's handler replaces exactly the draft email |
| App.HandleLogin | src/App.jsx:81-95 | a white-space-only name or email sets "Both fields are required." and changes nothing else, even when the address is also malformed; otherwise a malformed address sets "Please enter a valid email address." and changes nothing else; otherwise the untrimmed drafts become the user and drafts and error are cleared |
| App.Step | src/App.jsx:38-122 | only the theme button changes the theme; only logout and submit change the user |
| App.RunAppend | src/App.jsx:38-122 | replaying two event sequences one after the other is replaying the first and then the second from where it ended, and stops at the first unavailable event |
| App.ToggleTwiceIsIdentity | src/App.jsx:8 | two toggles restore the whole state |
| App.TogglesAlternate | src/App.jsx:7-8 | `n` toggles keep the theme for even `n`, flip it for odd `n`, and change nothing else |
| App.ThemeFromStart | src/App.jsx:7-8 | from the first render (light) the theme alternates light, dark, light, ... with the number of toggles |
| App.LogoutIdempotent | src/App.jsx:27 | logging out twice equals logging out once |
| App.StepPreservesInvariant | src/App.jsx:81-122 | every available event keeps the invariant: while someone is logged in the form is empty and the user has a non-blank name and a valid-shaped address |
| App.RunPreservesInvariant | src/App.jsx:81-122 | every sequence of available events keeps that invariant |
| App.ReachableInvariant | src/App.jsx:23-27 | every state reachable from the first render satisfies the invariant, so a stored user always passed the form's checks |
| App.SessionHoldsUntilLogout | src/App.jsx:97-122 | once someone is logged in, events other than logout never change the user and the submit button stays off screen, so no second submit happens before logout |
| App.LogoutReopensForm | src/App.jsx:91-97 | logging out of a reachable state shows the form again, with empty drafts and no error |
| Scenarios.EmptyNameIsRequired | src/App.jsx:82-85 | an empty name with address `a@b.com` gives the missing-field error and no user |
| Scenarios.SpacesOnlyNameIsRequired | src/App.jsx:82-85 | a name of spaces only is blank as well |
| Scenarios.AddressWithoutAtIsInvalid | src/App.jsx:86-89 | name `Kai` with `not-an-email` gives the invalid-address error, no user, drafts kept |
| Scenarios.SampleAddressIsValid | src/App.jsx:78 | `kai@example.com` matches the pattern |
| Scenarios.WellFormedAddressLogsIn | src/App.jsx:91-94 | name `Kai` with `kai@example.com` logs in exactly that pair, clears the form and hides the submit button |
| Scenarios.LogoutAfterLoginReopensForm | src/App.jsx:27 | logging out after that login shows the form again, with empty drafts and no error |

## Left out

- Rendering: the markup, the styling classes, the icons and the profile card's
  text (`src/App.jsx:10-16`, `src/App.jsx:40-67`, `src/App.jsx:98-121`,
  `src/App.jsx:126-138`). Only which controls are on screen is modelled, in `App.Enabled`.
- React's context, hooks and batching of state updates: replaced by the
  explicit state record and one atomic transition per event.
- Notifying subscribers and re-rendering: framework behaviour, not logic of this page.
- `vite.config.js`: build configuration with no runtime behaviour.
- Strings are sequences of Unicode scalar values, while JavaScript strings are
  UTF-16 code units. The pattern and `trim` treat every surrogate as an
  ordinary non-space character, so the two readings agree on well-formed text;
  strings holding lone surrogates cannot be written in the model.
- The full email grammar of section 3.4.1 of RFC 5322: the page uses only the
  basic pattern, which is what is modelled.
