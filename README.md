# PawFinder registration logic in Dafny

A model of the local logic of the PawFinder registration page (`app.py`):
the password-strength validator, the gate that decides whether a
registration request is sent and how the endpoint's answer is reported, and
the two-page navigation held in the session state.

- `password_policy.dfy` (module `PasswordPolicy`): `validate_password` as a
  method that appends one message per failed rule, proved equal to a
  reference definition, `Validate`. `Validate` filters the ordered rule list
  `[MinLength, HasUpper, HasLower, HasDigit, HasSpecial]` by the rules the
  password fails. A regular-expression search for one character class
  (`re.search(r"[A-Z]", ...)`) is modelled as `Search`, a left-to-right
  scan. `Search` is proved to answer "some character lies in the class".
  Only the ASCII ranges and the fixed set `!@#$%^&*(),.?:{}|<>` count.
- `registration.dfy` (module `Registration`): the submit branch. It
  validates first, then refuses on a password mismatch, then refuses on a
  weak password (one error per message, in order). Otherwise it posts the
  form and reads the answer: 201 is success, any other status is a failure
  carrying the body's `error` field or "Unknown error", and a connection
  error gets its own message. The endpoint's answer is an input value.
  `Decide` is the gate (mismatch, weak password, or send the form),
  `Classify` reads the answer, `Reason` picks the failure text, and
  `Notices` gives the messages a submission shows; `HandleSubmit` is proved
  against `Decide` and `Notices`.
- `session.dfy` (module `Navigation`): class `Session` with the mutable
  `page` entry of the session state. The entry is set to `'Login'` only when
  absent. `switch_page` writes its argument. The "Register Here" and
  "Login Here" buttons switch pages. Submitting the form leaves the page
  unchanged. `NavigationScenario` walks one session through three render
  passes: the login form first, "Register Here" to the registration form
  (kept by the next pass's initialisation), and "Login Here" back.
- `wrappers.dfy` (module `Wrappers`): `Option`.

Behaviour of `app.py` worth noting, as the model captures it:
- An empty password gets all five messages: every check at app.py:12-21
  runs unconditionally.
- A successful registration shows a success notice and does not change the
  page (app.py:102-104).
- The page values are `'Login'` and `'Register'` (app.py:32, 35, 50, 53,
  114).
- An error body that is not JSON raises an uncaught exception at
  app.py:107; see Left out.

## Model

| member | source | states |
|---|---|---|
| PasswordPolicy.Search | app.py:14-21 | a class search finds a character iff some character of the password lies in the class |
| PasswordPolicy.ValidatePassword | app.py:9-22 | the five sequential checks and appends produce exactly `Validate(password)`: the messages of the failed rules, in the fixed order |
| PasswordPolicy.ValidateUnfolded | app.py:11-22 | the filter over the ordered rule list equals the five checks run one after another, each adding its message when its rule fails |
| PasswordPolicy.FailingMembers | app.py:11-22 | a rule is in the filtered list iff it is one of the rules checked and the password fails it |
| PasswordPolicy.FailingAscending | app.py:11-22 | filtering keeps the rules' order and never lengthens the list |
| PasswordPolicy.ViolationsExact | app.py:12-21 | each rule is reported iff the password fails it; the rules are checked independently |
| PasswordPolicy.ViolationCriteria | app.py:12-21 | the length rule is reported iff fewer than 8 characters; the upper, lower and digit rules iff no character lies in `A`-`Z`, `a`-`z`, `0`-`9`; the special rule iff no character is in the fixed set |
| PasswordPolicy.ViolationsOrdered | app.py:11-22 | the reported rules follow the fixed order length, upper, lower, digit, special, with no repetition and at most five entries |
| PasswordPolicy.ViolationsEmptyIff | app.py:11-22 | nothing is reported iff all five rules hold |
| PasswordPolicy.MessageInjective | app.py:13-21 | the five messages are pairwise different |
| PasswordPolicy.ValidateMessages | app.py:11-22 | a message is in the output iff its rule fails; the output has at most five entries, none repeated, and is empty iff all rules hold |
| PasswordPolicy.CharacterRulesIgnoreLength | app.py:14-21 | two passwords with the same characters fail the same character rules, whatever their lengths; only the length rule depends on length |
| PasswordPolicy.StrongPasswordPasses | app.py:11-22 | `"Abcdef1!"` gets no message |
| PasswordPolicy.EmptyPasswordFailsAll | app.py:11-22 | the empty password gets all five messages, in order |
| PasswordPolicy.OtherPunctuationIsNotSpecial | app.py:20-21 | space, `-` and `_` do not satisfy the special-character rule |
| PasswordPolicy.NonAsciiCapitalsDoNotCount | app.py:14-15 | non-ASCII capitals do not satisfy the uppercase rule |
| Registration.HandleSubmit | app.py:79-110 | the submit branch shows exactly the notices of the gate and verdict, and posts the form iff the gate says send |
| Registration.MismatchBlocksRequest | app.py:80-82 | differing passwords give only "Passwords do not match." and no request, whatever the rules say |
| Registration.WeakPasswordShowsEveryError | app.py:83-85 | matching passwords that fail rules show every rule message as an error, in order, and send nothing |
| Registration.RequestSentIff | app.py:80-100 | a request is sent iff the passwords are equal and all five rules hold, and the body is the form as filled in |
| Registration.ClassifyOutcomes | app.py:102-110 | 201 and only 201 is success; any other status gives "Registration failed: " and the `error` field or "Unknown error"; the connection notice arises iff the connection failed |
| Registration.FailureNoticeCarriesError | app.py:105-107 | a rejected request's notice is exactly "Registration failed: " followed by the endpoint's error text, and so ends with that text |
| Navigation.Dispatch | app.py:35-53 | a stored value selects a form iff it is `'Login'` or `'Register'`, and the form's name is that value |
| Navigation.DispatchPageName | app.py:35-53 | storing a page and dispatching on it gives that page back |
| Navigation.Session.Shown | app.py:35-53 | once the page is set to a known value, some form is shown |
| Navigation.Session.constructor | app.py:30-31 | a new session has no page entry |
| Navigation.Session.InitPage | app.py:30-32 | an absent page becomes `'Login'`; an existing value is kept; afterwards a form is shown |
| Navigation.Session.SwitchPage | app.py:24-26 | the page becomes exactly the argument; it stays one of the two pages iff the argument is one |
| Navigation.Session.RegisterHere | app.py:50 | the button leads to the Register page |
| Navigation.Session.LoginHere | app.py:114 | the button leads to the Login page |
| Navigation.Session.SubmitRegistration | app.py:79-110 | a submission shows the submit branch's notices and leaves the page unchanged, on success too |

## Left out

- Rendering: titles, captions, form widgets, `st.balloons` and the
  "Already have an account?" texts (app.py:36-77, 112-113). They are UI
  library calls. Only which notices appear, and whether each is an error or
  a success, is modelled.
- The login form (app.py:38-46). It only shows a "not implemented"
  warning.
- The HTTP request itself (app.py:100). It is I/O, so the endpoint's answer
  is a parameter of the model: a status code with the body's `error` field,
  or a connection error.
- `response.json()` (app.py:107). JSON decoding happens in a library. A
  body that is not JSON raises an exception the page does not catch, and
  the model does not include that case. The `error` field is given as the
  text Python would print for it. A JSON `null` field prints as `None`,
  which the model does not tell apart from any other text.
- A JSON body that is not an object (a list, a number, a string). `.get`
  at app.py:107 then raises an `AttributeError` the page does not catch;
  the model's reply always has an `error` field or none.
- Other exceptions of the request. A connect timeout is a kind of
  connection error in the HTTP library, so app.py:109 catches it and the
  model's `ConnectionError` covers it. The request sets no timeout, so a
  slow reply blocks rather than raising. Other request failures propagate
  uncaught and are not modelled.
- Age bounds 1..120 (app.py:63). The number widget enforces them, so the
  model places no bound on `age`.
- The Streamlit rerun cycle is implicit: `Session.InitPage` is the first
  step of each render pass, and `Session.Shown` is the page's dispatch.
