/**
 * `signin` and `registerUser`: validate, look the email up, hash or compare
 * the password, write the record (registration only), sign a token, and
 * answer with an envelope. Library and store failures, the fresh id and
 * the salt are inputs, gathered per call in an oracle.
 */
module UserService {

  import opened Wrappers
  import opened OutputFactory
  import opened Crypto
  import opened Schemas
  import opened Accounts

  // The messages of the envelopes, spelled as the service spells them.
  const ValidationError := "Validation error"
  const Incorrect := "Entered  Email or Password is Incorrect"
  const SignedInMessage := "User succesfully signin!"
  const GettingUser := "Error in getting the user"
  const SigningIn := "Error in signining the user"
  const AnErrorOccured := "An error occured!"
  const AlreadyExists := "User Already exixts"
  const AlreadyExistsDetail := "User already exists"
  const RegisteringInternal := "Error in registerering the user"
  const Registering := "Error in registering the user"
  const Created := "User created sucessfully!"
  const Occured := " occured!"

  /**
   * The user inside a success envelope: sign-in sends `{user: {...}}`,
   * registration sends `{user: {user}}`, one level deeper.
   */
  datatype UserView = Flat(user: User) | Nested(user: User)

  /** The `data` of an envelope. */
  datatype Payload =
    | NoData
    | Text(text: string)
    | Rejected(violations: seq<Violation>)
    | Session(view: UserView, token: Token<User>)

  type Reply = Response<Payload>

  /** What the collaborators answer during one `signin` call. */
  datatype SignInOracle = SignInOracle(lookupFault: Option<StoreError>, compareFault: bool)

  /**
   * What the collaborators answer during one `registerUser` call: the
   * fresh `uuid.v4()`, a lookup failure, the salt (`None` when `genSalt`
   * fails), a hash failure and an insert failure.
   */
  datatype RegisterOracle = RegisterOracle(
    newId: string,
    lookupFault: Option<StoreError>,
    salt: Option<string>,
    hashFault: bool,
    insertFault: Option<StoreError>)

  /** The reply of a registration and the store it leaves behind. */
  datatype Step = Step(reply: Reply, rows: map<string, User>)


  /** The envelope a `catch` builds from a repository error. */
  function Caught(e: StoreError, internalMessage: string, otherMessage: string): Envelope<Payload>
  {
    match e
    case InternalServerError(m) => Envelope(500, internalMessage, Text(m))
    case OtherError => Envelope(400, otherMessage, Text(AnErrorOccured))
  }

  /**
   * The envelope the insert's `catch` settles the promise with: it
   * resolves twice on an internal error, and the first of the two wins.
   */
  function InsertCaught(e: StoreError): (env: Envelope<Payload>)
    ensures Resolved(env)
         == Settle(if e.InternalServerError?
                   then Settle(Pending, Envelope(500, RegisteringInternal, Text(e.message)))
                   else Pending,
                   Envelope(400, Registering, Text(Occured)))
  {
    if e.InternalServerError? then Envelope(500, RegisteringInternal, Text(e.message))
    else Envelope(400, Registering, Text(Occured))
  }

  /** The envelope a failed validation produces. */
  function Invalid(vs: seq<Violation>): Envelope<Payload>
  {
    Envelope(400, ValidationError, Rejected(vs))
  }

  /** The record `registerUser` inserts, with the given password property. */
  function NewRecord(values: SignUpRequest, id: string, password: PasswordField): User
    requires values.firstName.Some? && values.lastName.Some? && values.birthday.Some?
    requires values.phoneNumber.Some? && values.address.Some? && values.email.Some?
    requires values.city.Some?
  {
    User(id, values.firstName.value, values.lastName.value, values.birthday.value,
         values.phoneNumber.value, values.address.value, values.email.value,
         values.city.value, password)
  }

  // ---------------------------------------------------------------------
  // Sign-in

  /** What `signin(email, password)` answers against the store `rows`. */
  function SignInOutcome(rows: map<string, User>, cfg: Config, email: Option<string>,
                         password: Option<string>, o: SignInOracle): (r: Reply)
    ensures r.Resolved? ==> r.envelope.status in {200, 400, 500}
  {
    var vs := SignInViolations(email, password);
    if vs != [] then Resolved(Invalid(vs))
    else if o.lookupFault.Some? then Resolved(Caught(o.lookupFault.value, GettingUser, GettingUser))
    else if email.value !in rows then Resolved(Envelope(400, Incorrect, NoData))
    else
      var user := rows[email.value];
      if Compare(password.value, StoredDigest(user.password), o.compareFault) == Compared(true) then
        Resolved(Envelope(200, SignedInMessage, Session(Flat(WithoutPassword(user)), Sign(user, cfg))))
      else
        Pending
  }

  /**
   * `signin`, step by step. The promise built around `bcrypt.compare` is
   * resolved only when the password matches.
   */
  method SignIn(store: AccountStore, cfg: Config, email: Option<string>,
                password: Option<string>, o: SignInOracle) returns (r: Reply)
    requires store.Valid()
    ensures r == SignInOutcome(store.rows, cfg, email, password, o)
  {
    var vs := SignInViolations(email, password);
    if vs != [] {
      return Resolved(Invalid(vs));
    }
    var res := store.GetUser(email.value, o.lookupFault);
    if res.Thrown? {
      return Resolved(Caught(res.error, GettingUser, GettingUser));
    }
    if |res.rows| == 0 {
      return Resolved(Envelope(400, Incorrect, NoData));
    }
    var user := res.rows[0];
    var promise: Reply := Pending;
    var cmp := Compare(password.value, StoredDigest(user.password), o.compareFault);
    if cmp.CompareError? {
      // An envelope is built here and dropped; control falls through with
      // `isMatch` undefined, which is falsy.
      var dropped := Envelope(400, SigningIn, Text(AnErrorOccured));
    }
    var isMatch := cmp == Compared(true);
    if isMatch {
      var userObj := WithoutPassword(user);
      promise := Settle(promise, Envelope(200, SignedInMessage, Session(Flat(userObj), Sign(user, cfg))));
    }
    // On a mismatch the callback returns an envelope nobody receives.
    r := promise;
  }

  // ---------------------------------------------------------------------
  // Registration

  /** What `registerUser(values)` answers and the store it leaves. */
  function RegisterOutcome(rows: map<string, User>, cfg: Config, values: SignUpRequest,
                           formats: Formats, o: RegisterOracle): (s: Step)
    ensures s.reply.Resolved? && s.reply.envelope.status in {201, 400, 500}
  {
    var vs := SignUpViolations(values, formats);
    if vs != [] then Step(Resolved(Invalid(vs)), rows)
    else if o.lookupFault.Some? then
      Step(Resolved(Caught(o.lookupFault.value, RegisteringInternal, Registering)), rows)
    else if values.email.value in rows then
      Step(Resolved(Envelope(400, AlreadyExists, Text(AlreadyExistsDetail))), rows)
    else if o.salt.None? then
      Step(Resolved(Envelope(400, Registering, Text(AnErrorOccured))), rows)
    else
      var early: Reply := if o.hashFault then Resolved(Envelope(400, Registering, Text(AnErrorOccured))) else Pending;
      var hash := if o.hashFault then Undefined else Hashed(Hash(values.password.value, o.salt.value));
      var user := NewRecord(values, o.newId, hash);
      if o.insertFault.Some? then
        Step(Settle(early, InsertCaught(o.insertFault.value)), rows)
      else
        var shown := WithoutPassword(user);
        Step(Settle(early, Envelope(201, Created, Session(Nested(shown), Sign(shown, cfg)))),
             rows[values.email.value := user])
  }

  /** `registerUser`, step by step, with its promise and its two writes. */
  method RegisterUser(store: AccountStore, cfg: Config, values: SignUpRequest,
                      formats: Formats, o: RegisterOracle) returns (r: Reply)
    requires store.Valid()
    modifies store
    ensures store.Valid()
    ensures Step(r, store.rows) == RegisterOutcome(old(store.rows), cfg, values, formats, o)
  {
    var vs := SignUpViolations(values, formats);
    if vs != [] {
      return Resolved(Invalid(vs));
    }
    var res := store.GetUser(values.email.value, o.lookupFault);
    if res.Thrown? {
      return Resolved(Caught(res.error, RegisteringInternal, Registering));
    }
    if |res.rows| != 0 {
      return Resolved(Envelope(400, AlreadyExists, Text(AlreadyExistsDetail)));
    }
    var id := o.newId;
    var promise: Reply := Pending;
    if o.salt.None? {
      promise := Settle(promise, Envelope(400, Registering, Text(AnErrorOccured)));
    } else {
      var hash: PasswordField;
      if o.hashFault {
        // The hash callback resolves but does not return: the insert
        // below still runs, with an undefined password.
        promise := Settle(promise, Envelope(400, Registering, Text(AnErrorOccured)));
        hash := Undefined;
      } else {
        hash := Hashed(Hash(values.password.value, o.salt.value));
      }
      var user := NewRecord(values, id, hash);
      var thrown := store.RegisterUser(user, o.insertFault);
      if thrown.None? {
        user := WithoutPassword(user);
        promise := Settle(promise, Envelope(201, Created, Session(Nested(user), Sign(user, cfg))));
      } else {
        if thrown.value.InternalServerError? {
          promise := Settle(promise, Envelope(500, RegisteringInternal, Text(thrown.value.message)));
        }
        promise := Settle(promise, Envelope(400, Registering, Text(Occured)));
      }
    }
    r := promise;
  }
}
