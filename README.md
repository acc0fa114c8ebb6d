# Smart Home demo site: user store and form validation in Dafny

The site's scripts keep a toy account system in the browser's local storage.
`AuthSystem` holds the list of registered users under `smarthome_users` and the
logged-in user under `smarthome_current_user`. The sign-up, login and contact
forms check every input with `validateField` before anything reaches the store.
This project models both parts and proves what they promise:

- emails stay unique;
- a failed `addUser` or `authenticateUser` saves nothing;
- a successful one changes exactly one record;
- the session slot behaves as a single key;
- each field validator accepts exactly the language its regular expression
  describes.

Files, one module each:

- `wrappers.dfy` (`Wrappers`): `Option` (JavaScript `null`) and `Result` (a
  thrown `Error`).
- `js_string.dfy` (`JsString`): the JavaScript built-ins the code relies on.
  These are `trim` and the `\s` class, which both use ECMAScript's WhiteSpace
  and LineTerminator set; `.length` in UTF-16 code units; and `toString` of the
  millisecond clock, which becomes the user id.
- `patterns.dfy` (`Patterns`): the four regular expressions, one hand-written
  predicate each, plus lemmas that state each language in plain terms.
- `validation.dfy` (`Validation`): the `switch` of `validateField`,
  `validateEmail`, the non-short-circuiting `forEach` over a form's inputs,
  `validateLoginForm` and `validateContactForm`.
- `auth_system.dfy` (`Auth`): the user record, `find` by email, and the class
  `AuthSystem`. Its two fields are the two storage keys (`None` while a key is
  absent). Its methods are `addUser`, `authenticateUser`, `setCurrentUser` and
  `logout`.
- `signup_flow.dfy` (`SignupFlow`): `validateSignupForm` and the sign-up submit
  handler, which calls `addUser` and then `setCurrentUser`.
- `scenario.dfy` (`Scenario`): a client run on a fresh browser profile. It signs
  up, signs up again with the same email, logs in with a wrong password, then
  logs in correctly.

Clock readings are parameters. `addUser` takes `now`, the value `Date.now()`
returns, and `stamp`, the value `new Date().toISOString()` returns: the source
reads the clock twice. `authenticateUser` takes the `stamp` it records as
`lastLogin`.

## Model

| member | source | states |
|---|---|---|
| `JsString.TrimStart` | js/script.js:301 | drops exactly the leading spaces: the result is a suffix, what was cut is all space, and it does not start with a space |
| `JsString.TrimEnd` | js/script.js:301 | drops exactly the trailing spaces: the result is a prefix, what was cut is all space, and it does not end with a space |
| `JsString.TrimSpec` | js/script.js:301 | `trim` keeps a contiguous piece of the value that neither starts nor ends with a space, and what it cuts off on either side is all space |
| `JsString.TrimEmpty` | js/script.js:313-315 | the trimmed value is empty (the "required" test fails) exactly when the raw value is all space |
| `JsString.TrimIdempotent` | js/script.js:301 | trimming a trimmed value changes nothing |
| `JsString.TrimPadded` | js/script.js:301 | any run of spaces added before the value and any run added after it, independently, are trimmed away again |
| `JsString.CodeUnits` | js/script.js:316 | `.length` counts UTF-16 code units: between `|s|` and `2|s|`, and exactly `|s|` when no character lies beyond the Basic Multilingual Plane |
| `JsString.DecimalString` | js/script.js:74 | `Date.now().toString()` is a non-empty string of decimal digits without a leading zero |
| `JsString.DecimalRoundTrip` | js/script.js:74 | reading the id's digits back gives the clock value again |
| `JsString.DecimalStringInjective` | js/script.js:74 | different clock values give different id strings |
| `Patterns.OneOrMoreEvery` | js/script.js:319 | a bracket class followed by `+`, anchored at both ends, matches exactly the non-empty strings of class characters |
| `Patterns.NamePatternIff` | js/script.js:319 | `/^[a-zA-Z\s]+$/` matches exactly the non-empty strings of ASCII letters and spaces |
| `Patterns.EmailPatternIff` | js/script.js:329 | `/^[^\s@]+@[^\s@]+\.[^\s@]+$/` matches exactly the strings with no space, exactly one `@` with something before it, and a `.` after the `@` that is neither the first nor the last character of the domain part |
| `Patterns.PhonePatternIff` | js/script.js:339 | `/^\+?[\d\s\-\(\)]+$/` matches exactly an optional `+` followed by one or more digits, spaces, `-`, `(` or `)` |
| `Patterns.PasswordPatternSound` | js/script.js:352 | a value the password lookaheads accept holds a lowercase letter, an uppercase letter and a digit |
| `Patterns.PasswordPatternComplete` | js/script.js:352 | on a value without a line terminator, holding those three kinds of character is enough |
| `Patterns.PasswordPatternStopsAtLineBreak` | js/script.js:352 | the lookaheads use `.*`, which stops at a line break: `"abC\n1234"` holds all three kinds and is still refused |
| `Validation.NameRule` | js/script.js:311-323 | a first or last name passes exactly when it is at least 2 characters long and made only of ASCII letters and spaces; the empty value gets "This field is required" and a single character inside the Basic Multilingual Plane gets "Must be at least 2 characters" (a character beyond it has `.length` 2) |
| `Validation.EmailRule` | js/script.js:325-333 | the email case of `validateField` and `validateEmail` agree on every input, and both accept exactly the well-formed addresses |
| `Validation.PhoneRule` | js/script.js:335-343 | a phone number passes exactly when it is an optional `+` followed by one or more digits, spaces, `-`, `(` and `)` |
| `Validation.PasswordRule` | js/script.js:345-356 | an accepted password has at least 8 code units and a lowercase letter, an uppercase letter and a digit; on a single line the converse holds too |
| `Validation.ConfirmationRule` | js/script.js:358-367 | the confirmation passes exactly when its trimmed value equals the password as typed and that is not empty |
| `Validation.PaddedPasswordNeverConfirms` | js/script.js:358-367 | the confirmation is trimmed but the password it is compared with is not, so a password that starts or ends with a space can never be confirmed |
| `Validation.AcceptedFieldMeans` | js/script.js:310-368 | an accepted input that has an error element satisfies its case's rule (name, email, phone, password, confirmation) on its trimmed value |
| `Validation.KindOfSwitch` | js/script.js:310-368 | the `switch` has a checked case exactly for the six listed names, `firstName` and `lastName` share one, and any other name passes whatever its value |
| `Validation.ValidateFieldIgnoresPadding` | js/script.js:300-301 | spaces before and after an input's value, in any amounts, never change the verdict of `validateField` |
| `Validation.ValidateAll` | js/script.js:388-393 | every present input is validated with no short-circuit, each verdict is recorded, and the form passes exactly when all of them pass |
| `Validation.LoginAcceptedMeans` | js/script.js:416-428 | a login form with an email input is accepted exactly when it holds a well-formed address and a password that is not blank |
| `Validation.ValidateContactForm` | js/script.js:430-448 | the contact form passes exactly when every present input passes and the subject, when the page has one, has been chosen |
| `Auth.ErrorMessagesDistinct` | js/script.js:69-97 | the three thrown messages, which the submit handlers display, are non-empty and tell the errors apart |
| `Auth.FindByEmail` | js/script.js:69 | `find` returns the first record whose email is exactly the given one, and returns none exactly when no record has it |
| `Auth.FindByEmailUnique` | js/script.js:88 | when emails are unique, `find` returns the one record that has the email |
| `Auth.AppendKeepsUnique` | js/script.js:66-81 | appending a record whose email is not taken keeps emails unique |
| `Auth.Touched` | js/script.js:99 | recording a login changes only the `lastLogin` of the one record, and the list keeps its length |
| `Auth.TouchedKeepsUnique` | js/script.js:98-100 | recording a login keeps emails unique |
| `Auth.LoginSucceedsIff` | js/script.js:86-103 | with unique emails, a login succeeds exactly when some record has both the email and the password, and it then picks that record |
| `Auth.SignupThenLogin` | js/script.js:73-102 | right after a sign-up, logging in with the new email and password succeeds on the new record |
| `Auth.AuthSystem.constructor` | js/script.js:48-57 | a page load sees whatever the browser profile already stores under the two keys; `getUsers()` then returns the stored list, or the empty list when nothing is stored, and nobody is logged in exactly when the session key is absent |
| `Auth.AuthSystem.SaveUsers` | js/script.js:60-62 | the whole list replaces what is stored and reading it back gives the same list; the session is untouched |
| `Auth.AuthSystem.AddUser` | js/script.js:65-83 | a taken email fails with `EmailExists` and saves nothing. Otherwise exactly one record is appended: it holds the given fields, the id from the clock, `createdAt` from the clock and no `lastLogin`. All earlier records stay, the new record is returned, and unique emails stay unique |
| `Auth.AuthSystem.Authenticate` | js/script.js:86-103 | an unknown email fails with `UserNotFound`, and a wrong password on the matched record fails with `InvalidPassword`; neither saves anything. On success only that record's `lastLogin` is set, the length and every other record are unchanged, and the updated record is returned |
| `Auth.AuthSystem.SetCurrentUser` | js/script.js:112-114 | afterwards `getCurrentUser()` returns the given user and `isLoggedIn()` holds; the user list is untouched |
| `Auth.AuthSystem.Logout` | js/script.js:117-118 | afterwards `getCurrentUser()` is none and `isLoggedIn()` is false; the user list is untouched |
| `SignupFlow.InputsPassAll` | js/script.js:385-393 | the loop over the six inputs passes exactly when each of them passes `validateField` |
| `SignupFlow.ValidateSignupForm` | js/script.js:384-414 | the form is valid exactly when all six inputs pass, the terms box is not left unticked, and no stored record has the trimmed email |
| `SignupFlow.AcceptedSignupProfile` | js/script.js:215-221 | the profile an accepted sign-up hands to `addUser` has valid names and phone, a well-formed email that no record carries, and a non-empty password typed twice that is strong once trimmed |
| `SignupFlow.SubmitSignup` | js/script.js:210-237 | an accepted form appends exactly one record, the one `addUser` builds from the trimmed fields, the clock id and stamp and no `lastLogin`, and logs that user in; a refused form changes nothing in storage |
| `Scenario.AmyScenario` | js/script.js:65-103 | on a fresh profile: the first sign-up succeeds, the second with the same email fails with `EmailExists`, a wrong password fails with `InvalidPassword`, and the right one logs in and records `lastLogin` on the same record |

## Left out

- DOM work and presentation are not modelled: navigation, the hero banner, the
  toast messages of `showMessage`, loading states, animations, key handlers and
  the blog modal with its post texts. `validateField` is modelled up to its
  verdict and message; writing the message and CSS classes into the page is left
  out. The toasts that `validateSignupForm`, `validateLoginForm` and
  `validateContactForm` show are left out too; only their boolean results are
  modelled.
- Timers and redirects (`setTimeout`, `window.location`) and `debounce` are
  left out. `logout` is modelled only for its storage effect. `checkLoginStatus`
  is left out for the same reason: it only logs and redirects.
- The features that use `Math.random` or floats are left out: lights,
  temperature and the dashboard counters. `js/app.js` only sets the HTML of a
  dashboard element and is left out.
- JSON encoding and decoding between the store and `localStorage` is not
  modelled: what is saved under a key is exactly what is read back.
- `Date.now()` and `toISOString()` are parameters. Formatting a time as an ISO
  string is not modelled; the stamp is taken as given.
- The `...userData` spread lets a caller's own `id` field win over the clock
  id. The only caller never passes one, so the model uses a fixed `Profile`
  record.
- `Field` stores the `switch` case that the input's `name` selects.
  `Validation.KindOf` gives the case for a name. The other members take the case
  as given: the login and contact inputs' names come from HTML that is not part
  of this model.
- `Validation.ValidateContactForm` and `Validation.LoginAcceptedMeans` assume
  that no input on those pages is named `confirmPassword`. That case reads the
  page's `password` input, which those pages do not have.
- The sign-up page is taken to have all six inputs. If one were missing,
  `getElementById(...).value` would throw, and that error path is not modelled.
- Strings are sequences of Unicode scalar values. JavaScript strings are UTF-16
  code units, so lone surrogates cannot be represented. Lengths are still
  counted in code units, through `JsString.CodeUnits`.
- `id` is `Date.now().toString()` (js/script.js:74), so two sign-ups in the
  same millisecond share an id; no uniqueness of ids is claimed.
- `lastLogin` is whatever the clock gives (js/script.js:99); no ordering of
  login stamps is claimed.
- There is no password hashing in the source, so only the plaintext equality
  it uses is modelled.
- Validation.PasswordRule: it proves the converse (a strong password is
  accepted) only for values without a line terminator. For a value that has
  one, acceptance means some single line holds all three kinds of character;
  `Patterns.PasswordPatternStopsAtLineBreak` shows why the plain converse fails.
