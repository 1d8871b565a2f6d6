# Sign-up path of the laganiforum blogging back end, in Dafny

This project models how a user registers on the forum:

- **The browser form's pre-submit check** (`handlesubmit` in `client/src/pages/userAuthForm.page.jsx`).
  It picks the server route from the form type and folds the form's entries into an object.
  Then it runs four rules in order, stopping at the first that fails.
- **The server's `POST /signup` handler** (`server/server.js`).
  It re-checks the fields with an ordered, short-circuiting chain and hashes the password with bcrypt.
  It derives a username from the email's local part, adding a three-character nanoid suffix when that name is taken.
  It saves the user document and maps each outcome to an HTTP status and a JSON body.

The two regular expressions, shared by both sides, are modelled as languages over strings (`Patterns`):

- `emailRegex` is written piece by piece as the expression is built. It is proved equal to a plain description: a dotted local part, exactly one `@`, then a dotted domain ending in `.` and 2 or 3 word characters.
- `passwordRegex` is written with its three look-aheads. It is proved equal to "6 to 20 characters, no line terminator, with a digit, a lower-case and an upper-case ASCII letter".

The user collection is a class, `Users.UserStore`, whose `Save` method appends a user.
`Save` fails with code 11000 when the email or the username is already stored.
The handler `Signup.SignUp` works on that store in place.
Its postcondition ties the response and the new list of users to the function `Signup.SignupSpec`.
The lemmas in `SignupProperties` state what the source promises about that function.

Inputs stand in for what the code cannot see:

- the bcrypt callback's result is a `HashOutcome`: a 60-character `$2b$10$…` digest, or an error;
- `nanoid().substring(0, 3)` is a three-character `suffix` over nanoid's alphabet;
- any failure of `save()` other than a duplicate key is a `fault`.

Files: `wrappers.dfy` (Option, Result), `text.dfy` (falsiness, `split("@")[0]`, `replace`), `patterns.dfy`, `users.dfy`, `signup.dfy`, `signup_properties.dfy`, `auth_form.dfy`, `agreement.dfy`.

## Behaviour of the code worth noting

The model keeps each of these as the code has it:

- A duplicate key on save is answered **500** "Email already exists", not a 4xx.
- The 200 body is `{ user: u }`, the whole saved document. It includes the password digest and carries no token.
- Any code-11000 failure is reported as "Email already exists". That includes a clash on the suffixed username, which is never re-checked (`SignupProperties.SuffixedUsernameClash`).
- The trailing groups of the email expression are `.` plus 2 or 3 `\w` characters. Digits and `_` count as well as letters.
- The shown server has no sign-in handler and issues no token. The sign-in form still posts to `/signin`.

## Model

| member | source | states |
|---|---|---|
| `Text.BeforeFirst` | server/server.js:21 | `email.split("@")[0]`: a prefix of the email with no `@`, shorter than the email exactly when it has an `@`, which then follows it |
| `Text.ReplaceFirst` | client/src/pages/userAuthForm.page.jsx:100 | only the first occurrence of the character is replaced: same length, same text before and after it, unchanged when there is none |
| `Patterns.DottedIff` | server/server.js:12 | `\w+([\.-]?\w+)*` matches exactly the non-empty strings of word runs joined by single `.` or `-` |
| `Patterns.DomainIff` | server/server.js:12 | `\w+([\.-]?\w+)*(\.\w{2,3})+` matches exactly a dotted name whose last part is `.` and 2 or 3 word characters |
| `Patterns.EmailIff` | server/server.js:12 | `emailRegex.test(s)` holds iff the text before the first `@` is a dotted local part and the text after it is such a domain |
| `Patterns.EmailHasOneAt` | server/server.js:12 | an accepted email contains exactly one `@`, and the local part before it is non-empty |
| `Patterns.IsEmail` | server/server.js:12 | `emailRegex.test(s)`, written as the regex's own concatenation of pieces; an accepted string has at least 6 characters, starts with a word character and contains an `@` |
| `Patterns.SimpleEmailAccepted` | server/server.js:12 | `local@host.tld` with word-run parts and a 2–3 character last part is accepted |
| `Patterns.NotAnEmailRefused` | server/server.js:12 | "not-an-email" is refused |
| `Patterns.StrongPasswordIff` | server/server.js:13 | `passwordRegex.test(p)` holds iff 6 ≤ length ≤ 20, no line terminator, and a digit, a lower-case and an upper-case ASCII letter occur |
| `Patterns.IsStrongPassword` | server/server.js:13 | `passwordRegex.test(p)` with its three look-aheads; an accepted password contains a digit, a lower-case and an upper-case ASCII letter |
| `Patterns.PasswordAccepted` | server/server.js:13 | "Secret1" is accepted |
| `Patterns.PasswordsRefused` | server/server.js:13 | "alllowercase1" (no upper case) and the empty password are refused |
| `Users.SaveOutcome` | server/server.js:61-72 | a save succeeds iff there is no other fault and neither the email nor the username is stored; success appends exactly the document, failure stores nothing, and a duplicate fails with code 11000 |
| `Users.SaveKeepsKeysUnique` | server/server.js:61 | a save never makes two stored users share an email or a username |
| `Users.UserStore.UsernameExists` | server/server.js:22 | `User.exists` on the username holds iff some stored user has that username |
| `Users.UserStore.Save` | server/server.js:52-61 | `user.save()` updates the store in place as `SaveOutcome` says and keeps the unique-key invariant |
| `Signup.Validate` | server/server.js:32-45 | the first failing rule decides the error, in the order presence of all three fields, fullname ≥ 3, email expression, password expression; all pass iff the result is Ok with the three fields |
| `Signup.Username` | server/server.js:20-26 | the username starts with the email's local part; it equals it iff no stored user has that name, and is otherwise that name followed by the suffix |
| `Signup.GenerateUsername` | server/server.js:20-26 | the store query followed by the conditional `+=` yields `Username` of the stored users |
| `Signup.NewUser` | server/server.js:52-59 | the document to save has the request's fullname and email, a username starting with the email's local part, and the digest as password, which never equals a plaintext of at most 20 characters |
| `Signup.SignupSpec` | server/server.js:28-75 | one request answers 200, 403 or 500; every non-200 answer leaves the stored users unchanged, and a 200 appends exactly the user its body carries |
| `Signup.SignUp` | server/server.js:28-75 | the handler's response and the users stored afterwards are those of `SignupSpec`, and the store keeps its unique keys |
| `SignupProperties.RejectedBeforeHashing` | server/server.js:32-45 | a request that fails validation gets 403 with that rule's message; hash, suffix and store faults make no difference and nothing is stored |
| `SignupProperties.HashFailureStoresNothing` | server/server.js:47-50 | a failed hash gives 500 "Server error" and stores nothing |
| `SignupProperties.SignupSucceedsIff` | server/server.js:47-64 | 200 iff validation passes, hashing works, no other store fault, and neither the email nor the derived username is stored |
| `SignupProperties.SuccessAddsOneUser` | server/server.js:51-63 | a 200 appends exactly one user (fullname, derived username, email, digest) and keeps the others; the stored password is never the plaintext; the body is that whole document |
| `SignupProperties.FailureStoresNothing` | server/server.js:32-72 | every non-200 answer is 403 or 500 and leaves the stored users unchanged |
| `SignupProperties.StoreErrorMapping` | server/server.js:65-72 | a store error with code 11000 gives 500 "Email already exists"; any other gives 500 `{'Server error': message}` |
| `SignupProperties.DuplicateEmailRejected` | server/server.js:67-69 | a valid sign-up with an already-stored email gives 500 "Email already exists" and stores nothing |
| `SignupProperties.SecondSignupWithSameEmailFails` | server/server.js:52-69 | after one successful sign-up, a second valid one with the same email always fails that way |
| `SignupProperties.SignupKeepsKeysUnique` | server/server.js:52-72 | no sign-up makes two stored users share an email or a username |
| `SignupProperties.UsernameOfValidEmail` | server/server.js:20-26 | for an accepted email the username is the non-empty local part, possibly plus 3 characters, and holds no `@` |
| `SignupProperties.SampleBodyValid` | server/server.js:32-45 | a request with a fullname of 3+ characters, `alice@<letter>.com` and "Secret1" passes validation, and its local part is "alice" |
| `SignupProperties.StoredAsNext` | server/server.js:51-63 | a valid request that clashes with nothing is stored as the next user under the derived username |
| `SignupProperties.SameLocalPartTwice` | server/server.js:20-26 | `alice@x.com` then `alice@y.com` both succeed, as "alice" and "alice" plus the suffix, with unique keys |
| `SignupProperties.ClashingUsersFacts` | server/server.js:20-26 | the two-user store "alice", "alice"+suffix has unique keys and does not hold `alice@y.com` |
| `SignupProperties.SuffixedUsernameClash` | server/server.js:24 | the suffixed name is not re-checked: if it is taken, the sign-up fails with 500 "Email already exists" although the email is new |
| `SignupProperties.StoreErrorOnUsernameClash` | server/server.js:24 | whenever the derived username is already stored, the answer is 500 "Email already exists" and nothing is stored |
| `AuthForm.ServerRoute` | client/src/pages/userAuthForm.page.jsx:26 | the route is "/signin" exactly when the type is "sign-in", and "/signup" for every other type |
| `AuthForm.ButtonLabel` | client/src/pages/userAuthForm.page.jsx:100 | `type.replace("-", " ")`: same length, the first `-` becomes a space, the text around it is unchanged, and a type with no `-` is kept as it is |
| `AuthForm.LabelOfDashed` | client/src/pages/userAuthForm.page.jsx:100 | for any type `head-tail` whose head has no `-`, the label is `head tail`, whatever dashes the tail holds |
| `AuthForm.SignInLabel` | client/src/pages/userAuthForm.page.jsx:100 | the sign-in button reads "sign in" |
| `AuthForm.OnlyFirstDashReplaced` | client/src/pages/userAuthForm.page.jsx:100 | only the first `-` becomes a space ("a-b-c" gives "a b-c") |
| `AuthForm.FormDataOf` | client/src/pages/userAuthForm.page.jsx:32-34 | the object folded from the entries, in order; it has at most one key per entry |
| `AuthForm.FormDataLastWins` | client/src/pages/userAuthForm.page.jsx:32-34 | the object has a key for every entry name and no other, and each key holds the value of its last entry |
| `AuthForm.CollectFormData` | client/src/pages/userAuthForm.page.jsx:29-34 | the entries loop builds exactly `FormDataOf(entries)` |
| `AuthForm.Field` | client/src/pages/userAuthForm.page.jsx:37 | destructuring a field reads its value when the key is present, and `undefined` exactly when it is absent |
| `AuthForm.CheckForm` | client/src/pages/userAuthForm.page.jsx:43-60 | the first failing rule wins: email and password given, fullname ≥ 3 only when given, email expression, password expression; none fails iff all hold |
| `AuthForm.HandleSubmit` | client/src/pages/userAuthForm.page.jsx:24-63 | posts the collected form data to the route iff no rule fails, and otherwise raises exactly one toast, the first failing rule's message |
| `Agreement.AgreeWhenFullnameGiven` | client/src/pages/userAuthForm.page.jsx:43-60 | with a fullname given, the browser posts iff the server's validation chain accepts, and otherwise shows the server's message for the same rule; hashing and saving can still fail after the post |
| `Agreement.MissingFullnameRefusedByServer` | client/src/pages/userAuthForm.page.jsx:48-52 | without a fullname the browser never fails the length rule, yet the server answers "Please enter all fields" |

## Left out

- Express and Mongoose set-up (`server.use`, `mongoose.connect`, `server.listen`): process and network plumbing.
- bcrypt itself: the hash is an input, either a 60-character `$2b$10$` digest or an error. No cryptographic property is modelled.
- nanoid's randomness: the suffix is an input of three characters from nanoid's alphabet.
- `Schema/User.js` is not part of this model. The saved document is its `personal_info` (fullname, username, email, password). `_id`, defaults and schema validation are not modelled beyond the `fault` input.
- Users.SaveOutcome: when a fault and a duplicate key coincide, the model reports the fault. The real order is the database's.
- GenerateUsername: a failing `User.exists` query is not modelled. The source awaits it without a catch inside the bcrypt callback, so such a failure sends no response at all; the model always answers.
- Patterns.IsEmail: the expressions are modelled as languages, not as a matcher, so matching time is not modelled. `\w+([\.-]?\w+)*` backtracks exponentially in a backtracking engine such as V8's on long input that does not match.
- Concurrency: the `User.exists` then `save` race between simultaneous requests is not modelled. Each request runs alone against the store.
- Browser side effects: the axios post and its reply handling, toasts, `console.log`, JSX rendering and the `FormData` API. The entries are a sequence of name/value pairs.
- `client/src/components/navbar.component.jsx` and `client/src/App.jsx`: a visibility toggle and a static route table.
- Sign-in, token issuing and Google sign-in: no code for them exists in the modelled files.
- Request fields are strings or absent. Numbers, arrays or objects in the JSON body are not modelled, and neither are file values or special keys such as `__proto__` in the form data.
- Strings are sequences of characters. JavaScript's `length` counts UTF-16 code units, so the fullname and password length checks differ for characters outside the Basic Multilingual Plane.
