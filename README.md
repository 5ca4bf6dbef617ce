# Credential issuance: sign-in and registration

This project models the user service of a small Express back end
(`src/services/userService.js`). The service has two operations:

- `signin(email, password)` validates its input against a yup schema and looks
  the account up by email. It compares the password with the stored bcrypt
  digest and, on a match, answers 200 with the user (its password removed)
  and a JSON Web Token.
- `registerUser(values)` validates eight fields and checks that the email is
  new. It takes a fresh `uuid.v4()` id, salts and hashes the password, and
  inserts the record. It answers 201 with the user (its password removed) and
  a token.

A path that answers builds an envelope `{status, message, data}` with status
200, 201, 400 or 500, and the envelope reaches the caller through a promise.
Some sign-in paths never answer: a wrong password, a compare error and a
stored password that is not a digest leave the promise unresolved.

The Dafny modules follow the pieces of the service:

- `Wrappers`: `Option`, standing for `undefined`.
- `OutputFactory`: the envelope. `Response` is `Pending` or `Resolved(envelope)`.
  `Settle` is one call of `resolve`, and the first call wins.
- `Crypto`: bcrypt and jsonwebtoken as symbolic terms. A digest is the free
  term `Digest(plain, salt)`, and `Matches` is the only thing that looks inside
  it. A token is `Signed(claims, secret, expiresIn)`.
- `Schemas`: the sign-in and sign-up schemas, as lists of violations.
- `Accounts`: the user record and the account store. The store is a class
  whose `rows` map each email to its record. Its `GetUser` and `RegisterUser`
  methods stand for the repository calls.
- `UserService`: `SignIn` and `RegisterUser` are written step by step, with a
  local promise settled by `Settle`. Each is proved equal to a specification
  function, `SignInOutcome` or `RegisterOutcome`. Every collaborator's answer
  is an input, gathered in an oracle: lookup, compare, salt, hash and insert
  failures, the salt and the fresh id.
- `ServiceProperties`: what each branch produces and what it leaves in the
  store. It also states what holds of the store over any sequence of calls
  (`Replay`).

The model follows the code as written, including the places where it departs
from the service's intended design:

- A wrong password never resolves the promise (`Pending`). So an unknown email
  (400) and a wrong password can be told apart.
- A compare error builds an envelope, drops it, and then falls into the
  mismatch branch.
- The sign-in token is signed over the stored record, bcrypt digest included.
- Registration returns the user nested one level deeper: `{user: {user}}`.
- A hash failure resolves 400 but still inserts the record, with an undefined
  password. That account can then never sign in (compare fails on a
  non-string) and never register again.
- An insert failing with an internal server error resolves twice: first 500,
  then 400. Any other insert failure resolves once, with 400. The first
  resolve of the whole call wins. If the hash had already failed, its 400
  is the reply, and otherwise the insert failure's first envelope is.

One difference goes the other way. The model collects every violation into
`Rejected`, but the code reports only the first failing rule, because yup
runs with `abortEarly`. See "## Left out".

## Model

| member | source | states |
|---|---|---|
| Schemas.SignInViolations | src/services/userService.js:17-20 | sign-in input is accepted iff the email is present and non-empty and the password is present with a UTF-16 length of 8 to 15; every violation names the email or password field |
| Schemas.Utf16Length | src/services/userService.js:19 | a string's JavaScript `length` lies between its character count and twice that, and equals the character count iff no character lies outside the Basic Multilingual Plane |
| Schemas.AstralPasswordLength | src/services/userService.js:19 | four characters outside the Basic Multilingual Plane make an acceptable password (length 8), eight make one too long (length 16) |
| Schemas.PasswordViolations | src/services/userService.js:29 | the password rule reports nothing iff the password is present with a UTF-16 length in 8..15; every violation names the password field |
| Schemas.EmailViolations | src/services/userService.js:27 | the email rule reports nothing iff the email is present, non-empty and in email format; every violation names the email field |
| Schemas.DateViolations | src/services/userService.js:24 | the birthday rule reports nothing iff the birthday is present and parses as a date; every violation names the birthday field |
| Schemas.SignUpViolations | src/services/userService.js:21-30 | sign-up input is accepted iff all seven string fields are present and non-empty, the birthday parses as a date, the email has email format and the password has a UTF-16 length of 8 to 15 |
| Schemas.SignUpAcceptsSignIn | src/services/userService.js:17-30 | an email and password accepted by the sign-up schema are accepted by the sign-in schema |
| Crypto.Hash | src/services/userService.js:134 | the digest of a password matches that password and no other plaintext |
| Crypto.Compare | src/services/userService.js:47-55 | compare reports a match iff the library does not fail, the stored value is a digest and the candidate matches it; it errs iff the library fails or the stored value is not a digest |
| Crypto.Sign | src/services/userService.js:12-16 | a signed token gives back exactly its claims to a verifier holding the signing secret, and nothing to one holding any other secret; it carries the configured lifetime |
| OutputFactory.Settle | src/services/userService.js:165-175 | resolving a promise settles it; an already settled promise keeps its first envelope, a pending one takes the new envelope |
| Accounts.WithoutPassword | src/services/userService.js:56-57 | after `delete password` the user has no password property and the same id, names, birthday, phone, address, email and city |
| Accounts.AccountStore.GetUser | src/services/userService.js:40-44 | a lookup throws the store's error, or returns no row iff the email is absent, and otherwise only the record stored under that email |
| Accounts.AccountStore.RegisterUser | src/services/userService.js:156 | an insert throws the store's error and changes nothing, or adds the record under its email; the store stays keyed by email |
| UserService.SignInOutcome | src/services/userService.js:32-85 | whenever sign-in answers, the status is 200, 400 or 500 |
| UserService.SignIn | src/services/userService.js:32-85 | the step-by-step sign-in, with its promise, gives exactly the outcome of the specification and does not modify the store |
| UserService.InsertCaught | src/services/userService.js:164-176 | the envelope of a failed insert is what a pending promise settles to under the catch block's calls: `resolve(500)` then `resolve(400)` for an internal server error, where the first wins, and `resolve(400)` alone otherwise |
| UserService.RegisterOutcome | src/services/userService.js:87-182 | registration always settles, with status 201, 400 or 500 |
| UserService.RegisterUser | src/services/userService.js:87-182 | the step-by-step registration, with its promise and its insert, gives exactly the specified reply and store, and keeps the store keyed by email |
| ServiceProperties.SignInRejectsInvalid | src/services/userService.js:35-38 | invalid sign-in input answers 400 "Validation error" with the violations, whatever the store holds or the lookup would do |
| ServiceProperties.SignInLookupFailure | src/services/userService.js:73-84 | a failing lookup answers 500 with the error's message for an internal server error, otherwise 400 "An error occured!" |
| ServiceProperties.SignInUnknownEmail | src/services/userService.js:40-43 | an email with no record answers 400 "Entered  Email or Password is Incorrect" with no data |
| ServiceProperties.SignInSucceeds | src/services/userService.js:55-63 | 200 comes out iff the stored digest matches the password; the user returned is the stored record without its password, and the token is signed over the full stored record, digest included; it verifies under the configured secret to that record and carries the configured lifetime |
| ServiceProperties.SignInNeverResolves | src/services/userService.js:47-71 | no envelope ever comes out iff a record was found and compare did not report a match (wrong password, compare error or non-digest password) |
| ServiceProperties.UnknownEmailAndWrongPasswordDiffer | src/services/userService.js:40-71 | an unknown email gets an envelope while a wrong password for a known email gets none |
| ServiceProperties.RegisterRejectsInvalid | src/services/userService.js:89-101 | invalid registration answers 400 "Validation error" with the violations, whatever the store or collaborators do, and leaves the store unchanged |
| ServiceProperties.RegisterExistingOrLookupFailure | src/services/userService.js:103-121 | an existing email answers 400 "User Already exixts"; a failing lookup answers 500 or 400 by error kind; neither changes the store |
| ServiceProperties.RegisterSaltFailure | src/services/userService.js:124-132 | a failing salt generation answers 400 and changes nothing |
| ServiceProperties.RegisterSucceeds | src/services/userService.js:122-163 | 201 comes out iff the input is valid, the email is new and every collaborator succeeds; then exactly one record is added under that email, with the fresh id, the request's fields and the digest of the password; other records are unchanged; the reply nests the record without its password and the token verifies under the configured secret to that same password-less user |
| ServiceProperties.RegisterHashFailureStillInserts | src/services/userService.js:134-156 | a failing hash answers 400 yet inserts the record, with an undefined password and the fresh id |
| ServiceProperties.RegisterInsertFailure | src/services/userService.js:164-177 | a failing insert changes nothing; the reply is the first envelope resolved: the hash failure's 400, or else 500 for an internal error and 400 " occured!" otherwise |
| ServiceProperties.HashFailureLocksAccount | src/services/userService.js:134-156 | after a hash failure stored an undefined password, signing in to that email never resolves and registering it again answers "User Already exixts" |
| ServiceProperties.RegisterOnlyAdds | src/services/userService.js:103-156 | registration keeps the store keyed by email, never changes or removes a record, adds only the request's email and grows the store by at most one |
| ServiceProperties.RegisterKeepsIdsUnique | src/services/userService.js:122 | with an id not yet in use, user ids stay pairwise distinct |
| ServiceProperties.ReplayOnlyAdds | src/services/userService.js:32-182 | over any sequence of sign-ins and registrations, records are never changed or deleted, the store stays keyed by email and grows by at most one record per call |
| ServiceProperties.RegisterThenSignIn | src/services/userService.js:55-163 | after a successful registration, signing in with the same password answers 200 with the new record less its password and a token; any other password of acceptable length is never answered |

Some helpers have no row of their own, because the lemmas above state what they do:

- `UserService.Caught`, the envelope of the two lookup `catch` blocks, is covered by `SignInLookupFailure` and `RegisterExistingOrLookupFailure`.
- `UserService.NewRecord`, the record built for the insert, is covered by `RegisterSucceeds` and `RegisterHashFailureStillInserts`.
- `Accounts.StoredDigest`, the stored password as bcrypt receives it, is covered by `SignInNeverResolves` and `HashFailureLocksAccount`. They state that a password that is not a digest leaves sign-in unresolved.
- These are definitions that the contracts above use:
  - `UserService.Invalid`
  - `Schemas.RequiredString`, `Schemas.Present`, `Schemas.PasswordAccepted` and `Schemas.SignUpAccepted`
  - `Accounts.Profile` and `Crypto.Verify`
  - `ServiceProperties.SignInAccepted`, `Authenticates`, `Smooth`, `IdsUnique` and `Replay`

## Left out

- Schemas.SignInViolations, Schemas.SignUpViolations: the `Rejected` payload lists every violation. yup's `error.message` holds the text of only the first failing rule, and which rule comes first depends on yup's scheduling. The message wording is not modelled.
- Dafny's `string` cannot hold an unpaired UTF-16 surrogate, but a JavaScript string can. A password containing one has a JavaScript length and can pass yup's rules, but the model cannot represent it.
- yup's email regular expression and date parsing are parameters (`Formats.isEmail`, `Formats.isDate`). Type coercion of non-string inputs, and `null` as distinct from `undefined`, are not modelled.
- bcrypt internals are not modelled: the salt rounds (10), the algorithm and the constant-time comparison. A digest is a symbolic term, and the salt is an input.
- `jwt.sign` is not modelled beyond the claims it signs. The token's issue and expiry timestamps and its signature are left out. `TOKEN_SECRET` and `TOKEN_EXPIRE_TIME` from the process environment are a `Config` parameter.
- `uuid.v4()` randomness: the new id is an input. Uniqueness of ids is proved only under the hypothesis that the id is unused.
- `console.log` calls are left out, since they are output only.
- Crypto.Sign: signing never fails in this model. A `jwt.sign` throw (for example when `TOKEN_SECRET` is unset) is not modelled. In sign-in it would happen inside the compare callback, outside any `try`, and the promise would stay unresolved. In registration it would happen inside the `try` around the insert, after the record was stored. The `catch` would then resolve 400 "Error in registering the user" / " occured!" while the new record stays in the store.
- The promise `reject` path is not modelled, because no line uses it. Asynchronous scheduling is not modelled either.
- `src/repositories/userRepository.js` is not part of this model. Its `getUser` is assumed to return the single record stored under the email, or none. Its `registerUser` is assumed to insert atomically.
- Accounts.AccountStore.RegisterUser: requires the email to be absent, so the table's behaviour on a duplicate insert is not modelled. The service calls it only after finding the email absent.
- Concurrent registrations racing between the lookup and the insert are not modelled, because the model is sequential.
- Deleting `password` in place is modelled on values (`WithoutPassword`). The repository receives the record before the deletion, and the stored copy keeps the digest.
- `src/controllers/orderController.js` is routing glue with no logic of its own, and is not part of this model.
