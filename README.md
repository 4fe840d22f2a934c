# NEXORA backend: account signup and email verification codes

This project models the verification-code lifecycle and account rules of the NEXORA
backend. That backend is an Express application over MongoDB (through Mongoose) that
sends mail with Nodemailer. Two front ends are covered:

- `server.js`. `/api/signup` validates nine body values and rejects a username or
  email that is already taken. It then stores the user, creates a six-digit OTP
  record and mails the code. `/api/send-code` deletes every OTP record of an email
  and issues a new one. `/api/verify-code` looks up a record by (email, code) and
  deletes that record by its id. OTP records expire through the store's TTL index
  (300 s).
- `routes/auth.js`. `/signup` checks only that the username is free, then stores the
  body unchanged. `/reset-password` overwrites the password of the first user with
  the given email.

Each handler is modelled twice:

- A **step function** (`Server.SignupStep`, `AuthRoutes.ResetPasswordStep`, ...)
  maps the collections, the request and the outcome of each store call to the
  HTTP status and the collections afterwards. Its contract states the source's
  rules: which status comes back when, what is stored, and what stays untouched.
- A **method** of a class that holds the collections as fields (`Server.Backend`,
  `AuthRoutes.Router`). It performs the same store calls one at a time, with the same
  early returns. It is proved to produce exactly its step function's result and to
  keep the class invariant (the unique indexes, and ascending record ids).

External effects are inputs:

- Every awaited store call (`findOne`, `save`, `create`, `deleteMany`, `deleteOne`)
  and `transporter.sendMail` is a boolean, where `true` means the promise resolved.
  These are the fields of `SignupEffects`, `ResendEffects`, `VerifyEffects` and
  `AuthRoutes.Effects`.
- The random draw is an integer `n` with `100000 <= n <= 999999`.
- The clock is an integer `now`, in seconds.
- Mongo `_id`s come from a counter, `nextId`.

A request value is a `Field`: `Absent` (undefined or null) or `Given(text)`.
"Missing" means JavaScript falsiness, that is, absent or the empty string.
`findOne` returns the first document in insertion order.

Files: `otp_code.dfy` (the code generator), `records.dfy` (documents and store
queries), `server.dfy` (server.js handlers), `server_lifecycle.dfy` (properties over
several requests), `auth_routes.dfy` (routes/auth.js handlers).

Behaviour of the code worth noting:

- When sending mail fails after the user and the code were stored, `/api/signup`
  answers 500, not 201, and the stored user and code stay.
- Neither front end has a sign-in handler, so none is modelled.
- A code verifies exactly once only when no earlier record for the same
  email carries the same code. Signup does not clear earlier codes, so a repeated
  verify can succeed once more (`ServerLifecycle.SignupCodeVerifies`).

## Model

| member | source | states |
|---|---|---|
| OtpCode.GenerateOtp | server.js:59-61 | a draw in [100000, 999999] becomes exactly six digit characters, the first not '0', whose decimal value is the draw |
| OtpCode.ValueOfDecimal | server.js:60 | reading back the decimal rendering of any natural number gives that number |
| OtpCode.DecimalLength | server.js:60 | a number between 10^(k-1) and 10^k renders as exactly k digits |
| OtpCode.DecimalOfValue | server.js:60 | rendering the value of a digit string without a leading zero gives the string back |
| OtpCode.CodeShapeOnto | server.js:59-61 | every string of the shape [1-9][0-9]{5} is the code of exactly one draw in range |
| Records.NewUser | server.js:81-91 | `new User({...})` (and at routes/auth.js:27-37) copies every body value unchanged, so the body reads back from the document, and adds only the timestamp |
| Records.FindUser | server.js:76 | findOne returns the first user the filter matches, and None exactly when no user matches |
| Records.FindCode | server.js:142 | findOne({email, code}) returns the first record with both values, and None exactly when none has them |
| Records.WithoutEmail | server.js:119 | deleteMany({email}) keeps exactly the records of other emails |
| Records.WithoutId | server.js:147 | deleteOne({_id}) keeps exactly the records with another id |
| Records.Unexpired | server.js:45 | the TTL sweep keeps exactly the records younger than 300 seconds |
| Records.WithoutIdAt | server.js:147 | deleting by the id of a record whose id is unique removes that one position and keeps all others in order |
| Records.DeleteManyClearsEmail | server.js:119 | after deleteMany({email}) no record of that email is left, and repeating it changes nothing |
| Records.FiltersKeepIdsAscending | server.js:119 | deleteMany, deleteOne and the TTL sweep keep record ids ascending |
| Server.Create | server.js:95 | OTP.create leaves the users alone, keeps every earlier record in place and appends one record with that email, code and time under the next id, advancing the counter (`CreateKeepsWellFormed`: that id is fresh) |
| Server.CreateKeepsWellFormed | server.js:95 | OTP.create under a fresh id keeps ids ascending and below the next id |
| Server.FiltersKeepWellFormed | server.js:147 | the deletions and the sweep keep the collections well formed |
| Server.SignupStep | server.js:64-109 | 400 exactly when one of the nine values is falsy, with nothing changed; 409 exactly when a user has the same email or the same username, with nothing changed; once saved, the user stays even when the code or the mail fails (500, no rollback); on 201 one user with the submitted values and one record {email, code} are appended and earlier codes are kept; unique indexes preserved |
| Server.SendCodeStep | server.js:112-134 | 400 exactly when the email is missing, with nothing changed; after the bulk delete the email's only record is the new one (or none if create fails); other emails' records are untouched in every case; 200 exactly when delete, create and mail all succeed |
| Server.VerifyCodeStep | server.js:137-153 | 400 exactly when a value is missing or no record has both email and code; 200 exactly when a record matches and both store calls succeed, deleting by id the record findOne returns, which is the first match; no timestamp is consulted; failures change nothing |
| Server.EvictStep | server.js:45 | the store's passive expiry removes only records at least 300 s old and keeps every younger one |
| Server.Backend.Signup | server.js:64-109 | the in-place handler returns the status and leaves the collections that SignupStep gives, keeping the invariant |
| Server.Backend.SendCode | server.js:112-134 | the in-place handler matches SendCodeStep and keeps the invariant |
| Server.Backend.VerifyCode | server.js:137-153 | the in-place handler matches VerifyCodeStep and keeps the invariant |
| Server.Backend.Evict | server.js:45 | the environment's TTL step matches EvictStep and keeps the invariant |
| Server.Backend.CreateCode | server.js:95 | OTP.create appends a record under the next id |
| ServerLifecycle.VerifyConsumesFirstMatch | server.js:142-148 | a successful verify removes exactly the first matching record and keeps every other record in order, other codes of the same email included |
| ServerLifecycle.VerifyReplay | server.js:142-148 | repeating a successful verify fails with 400 exactly when no second record with that email and code existed |
| ServerLifecycle.ResendInvalidatesEarlierCodes | server.js:119-120 | after a successful resend, a verify for that email fails exactly when the code is not the new one, even for an earlier code never used |
| ServerLifecycle.ResendCodeVerifiesOnce | server.js:112-153 | the code a resend issues verifies once, and then a second verify fails |
| ServerLifecycle.SignupCodeVerifies | server.js:94-95 | the code signup issues verifies; a repeat fails exactly when no older record of the email had the same code, since signup does not clear old codes |
| ServerLifecycle.StaleCodeVerifiesUntilEvicted | server.js:142 | a record past 300 s still verifies until the store evicts it, and fails afterwards |
| ServerLifecycle.IssuedCodeLifetime | server.js:45 | a resent code verifies after a TTL sweep at time t exactly when t is less than 300 s after issue |
| ServerLifecycle.SoleRecord | server.js:119-120 | when one record is an email's only record, a code matches for that email exactly when it is that record's code, before and after a sweep |
| AuthRoutes.SignupStep | routes/auth.js:6-47 | 409 exactly when a user has that username, with nothing changed; 201 exactly when the lookup and save succeed and the username is free, appending one user with the submitted values; never 400; usernames stay unique |
| AuthRoutes.ResetPasswordStep | routes/auth.js:50-77 | 400 exactly when email or newPassword is missing; 404 exactly when no user has that email; 200 exactly when both values are given, both store calls succeed and a user has the email, so 500 exactly on a store failure; failures leave the table unchanged; on 200 only the first user with that email changes, and only its password |
| AuthRoutes.SignupAcceptsDuplicateEmail | routes/auth.js:21-39 | signup appends a user whose email is already on file |
| AuthRoutes.SignupAcceptsMissingFields | routes/auth.js:8-39 | signup stores a body whose values (other than the username) are all absent |
| AuthRoutes.ResetTargetsFirstMatch | routes/auth.js:61-68 | two resets of the same email change the same user, the first with that email |
| AuthRoutes.Router.Signup | routes/auth.js:6-47 | the in-place handler matches SignupStep and keeps usernames unique |
| AuthRoutes.Router.ResetPassword | routes/auth.js:50-77 | the in-place handler assigns the password field of the found user and matches ResetPasswordStep |

## Left out

- Express setup, CORS, body parsing, `mongoose.connect`, the root route and `app.listen` (server.js:1-24, 155-158): process bootstrap and I/O.
- Nodemailer configuration and message text: `sendMail` is only a success or failure input.
- `Math.random` and its floating-point arithmetic (server.js:60): the draw is an integer parameter in [100000, 999999]. Only the string shape is proved.
- Schema declarations are used only for record fields and unique constraints: username and email unique in server.js; username only in models/user.js.
- routes/auth.js is never mounted by server.js, and it requires `../models/User` while the file is `models/user.js`. The model gives each front end its own users table.
- Body values that are not strings (numbers, booleans, objects) are not modelled. Mongoose's casting of such values in queries is not modelled either.
- AuthRoutes.SignupStep: an absent username is matched by equality, so it finds users whose username is also absent (the driver's undefined-as-null reading). Mongoose's other possible treatment, dropping the key and matching every user, is not modelled.
- A failing `deleteMany` is modelled as deleting nothing. A partial deletion before the error is not modelled.
- A `save` rejected by a unique index is covered only through the store-call outcome input. The model does not derive that rejection from the index.
- Concurrency: requests run one at a time. The delete-then-insert race of two simultaneous resends (server.js:119-120) is not modelled.
- The TTL monitor runs only when the environment calls `Evict(now)`. Its 60-second polling period is not modelled. Timestamps are integers in seconds, and `now` is not required to be monotone.
- Console logging and the text of response messages are not modelled.
