/**
 * What `signin` and `registerUser` guarantee, branch by branch, about the
 * envelope that comes out and the store left behind; and what holds of
 * the store across any sequence of calls.
 */
module ServiceProperties {

  import opened Wrappers
  import opened OutputFactory
  import opened Crypto
  import opened Schemas
  import opened Accounts
  import opened UserService

  predicate SignInAccepted(email: Option<string>, password: Option<string>)
  {
    Present(email) && PasswordAccepted(password)
  }

  // ---------------------------------------------------------------------
  // Sign-in

  /**
   * A missing email, a missing password or one outside 8..15 characters
   * is answered 400 "Validation error" whatever the store holds and
   * whatever the store would have answered: no lookup happens.
   */
  lemma SignInRejectsInvalid(rows: map<string, User>, rows': map<string, User>, cfg: Config,
                             email: Option<string>, password: Option<string>,
                             o: SignInOracle, o': SignInOracle)
    requires !SignInAccepted(email, password)
    ensures SignInOutcome(rows, cfg, email, password, o) == SignInOutcome(rows', cfg, email, password, o')
    ensures SignInOutcome(rows, cfg, email, password, o)
         == Resolved(Envelope(400, ValidationError, Rejected(SignInViolations(email, password))))
  {
  }

  /** A failing lookup is a 500 for an internal error and a 400 otherwise. */
  lemma SignInLookupFailure(rows: map<string, User>, cfg: Config, email: Option<string>,
                            password: Option<string>, o: SignInOracle)
    requires SignInAccepted(email, password) && o.lookupFault.Some?
    ensures var r := SignInOutcome(rows, cfg, email, password, o);
      match o.lookupFault.value
      case InternalServerError(m) => r == Resolved(Envelope(500, GettingUser, Text(m)))
      case OtherError => r == Resolved(Envelope(400, GettingUser, Text(AnErrorOccured)))
  {
  }

  /** No record for the email: 400 with the generic "incorrect" message. */
  lemma SignInUnknownEmail(rows: map<string, User>, cfg: Config, email: Option<string>,
                           password: Option<string>, o: SignInOracle)
    requires SignInAccepted(email, password) && o.lookupFault.None? && email.Some? && email.value !in rows
    ensures SignInOutcome(rows, cfg, email, password, o) == Resolved(Envelope(400, Incorrect, NoData))
  {
  }

  /** Sign-in succeeds exactly when the stored digest matches the password. */
  predicate Authenticates(rows: map<string, User>, email: Option<string>,
                          password: Option<string>, o: SignInOracle)
  {
    && SignInAccepted(email, password)
    && o.lookupFault.None? && !o.compareFault
    && email.value in rows
    && rows[email.value].password.Hashed?
    && Matches(password.value, rows[email.value].password.digest)
  }

  /**
   * 200 comes out if and only if the password matches the stored digest.
   * The user sent back is the stored record without its password; the
   * token is signed over the stored record itself, digest included.
   */
  lemma SignInSucceeds(rows: map<string, User>, cfg: Config, email: Option<string>,
                       password: Option<string>, o: SignInOracle)
    ensures var r := SignInOutcome(rows, cfg, email, password, o);
      r.Resolved? && r.envelope.status == 200 <==> Authenticates(rows, email, password, o)
    ensures var r := SignInOutcome(rows, cfg, email, password, o);
      Authenticates(rows, email, password, o) ==>
        var stored := rows[email.value];
        && r.envelope.message == SignedInMessage
        && r.envelope.data.Session?
        && r.envelope.data.view.Flat?
        && r.envelope.data.view.user.password.Deleted?
        && Profile(r.envelope.data.view.user) == Profile(stored)
        && r.envelope.data.token.claims == stored
        && Verify(r.envelope.data.token, cfg.secret) == Some(stored)
        && r.envelope.data.token.claims.password == stored.password
        && r.envelope.data.token.secret == cfg.secret
        && r.envelope.data.token.expiresIn == cfg.expiresIn
  {
  }

  /**
   * The promise is left unresolved if and only if a record was found and
   * the comparison did not report a match: a wrong password, a compare
   * error, or a stored password that is not a digest.
   */
  lemma SignInNeverResolves(rows: map<string, User>, cfg: Config, email: Option<string>,
                            password: Option<string>, o: SignInOracle)
    ensures SignInOutcome(rows, cfg, email, password, o).Pending?
        <==> && SignInAccepted(email, password) && o.lookupFault.None?
             && email.value in rows
             && !Authenticates(rows, email, password, o)
  {
  }

  /**
   * The caller can tell an unknown email from a wrong password: the first
   * gets a 400 envelope, the second gets none.
   */
  lemma UnknownEmailAndWrongPasswordDiffer(rows: map<string, User>, cfg: Config, email: string,
                                           password: string, wrong: string, salt: string, o: SignInOracle)
    requires email in rows && rows[email].password == Hashed(Hash(password, salt))
    requires wrong != password && MinPasswordLength <= Utf16Length(wrong) <= MaxPasswordLength
    requires email != "" && o.lookupFault.None?
    ensures SignInOutcome(rows - {email}, cfg, Some(email), Some(wrong), o).Resolved?
    ensures SignInOutcome(rows, cfg, Some(email), Some(wrong), o).Pending?
  {
  }

  // ---------------------------------------------------------------------
  // Registration

  /**
   * An incomplete or malformed registration is answered 400 "Validation
   * error" whatever the store holds and whatever the collaborators would
   * have done, and the store is unchanged.
   */
  lemma RegisterRejectsInvalid(rows: map<string, User>, rows': map<string, User>, cfg: Config,
                               values: SignUpRequest, formats: Formats,
                               o: RegisterOracle, o': RegisterOracle)
    requires !SignUpAccepted(values, formats)
    ensures RegisterOutcome(rows, cfg, values, formats, o).rows == rows
    ensures RegisterOutcome(rows, cfg, values, formats, o).reply
         == RegisterOutcome(rows', cfg, values, formats, o').reply
         == Resolved(Envelope(400, ValidationError, Rejected(SignUpViolations(values, formats))))
  {
  }

  /**
   * An email already in the store is answered 400 "User Already exixts";
   * a failing lookup is a 500 or a 400 by the kind of error. Neither
   * inserts anything.
   */
  lemma RegisterExistingOrLookupFailure(rows: map<string, User>, cfg: Config, values: SignUpRequest,
                                        formats: Formats, o: RegisterOracle)
    requires SignUpAccepted(values, formats)
    requires o.lookupFault.Some? || values.email.value in rows
    ensures RegisterOutcome(rows, cfg, values, formats, o).rows == rows
    ensures var r := RegisterOutcome(rows, cfg, values, formats, o).reply;
      r == Resolved(
        if o.lookupFault.None? then Envelope(400, AlreadyExists, Text(AlreadyExistsDetail))
        else if o.lookupFault.value.InternalServerError? then
          Envelope(500, RegisteringInternal, Text(o.lookupFault.value.message))
        else Envelope(400, Registering, Text(AnErrorOccured)))
  {
  }

  /** A failing `genSalt` is a 400 and inserts nothing. */
  lemma RegisterSaltFailure(rows: map<string, User>, cfg: Config, values: SignUpRequest,
                            formats: Formats, o: RegisterOracle)
    requires SignUpAccepted(values, formats) && o.lookupFault.None? && values.email.value !in rows
    requires o.salt.None?
    ensures RegisterOutcome(rows, cfg, values, formats, o)
         == Step(Resolved(Envelope(400, Registering, Text(AnErrorOccured))), rows)
  {
  }

  /** Every collaborator succeeds during the call. */
  predicate Smooth(o: RegisterOracle)
  {
    o.lookupFault.None? && o.salt.Some? && !o.hashFault && o.insertFault.None?
  }

  /**
   * 201 comes out if and only if the request is valid, the email is new
   * and every collaborator succeeds. Then exactly one record is added,
   * under the request's email, with the fresh id and the digest of the
   * password in place of the plaintext; every other record is unchanged.
   * The user sent back, nested one level, and the token's claims are
   * that record without its password.
   */
  lemma RegisterSucceeds(rows: map<string, User>, cfg: Config, values: SignUpRequest,
                         formats: Formats, o: RegisterOracle)
    ensures var s := RegisterOutcome(rows, cfg, values, formats, o);
      (s.reply.envelope.status == 201)
        <==> (SignUpAccepted(values, formats) && values.email.value !in rows && Smooth(o))
    ensures var s := RegisterOutcome(rows, cfg, values, formats, o);
      SignUpAccepted(values, formats) && values.email.value !in rows && Smooth(o) ==>
        var email := values.email.value;
        && s.rows.Keys == rows.Keys + {email}
        && (forall e :: e in rows ==> s.rows[e] == rows[e])
        && s.rows[email].password == Hashed(Hash(values.password.value, o.salt.value))
        && Matches(values.password.value, s.rows[email].password.digest)
        && Profile(s.rows[email])
           == [o.newId, values.firstName.value, values.lastName.value, values.birthday.value,
               values.phoneNumber.value, values.address.value, email, values.city.value]
        && s.reply.envelope.message == Created
        && s.reply.envelope.data.Session?
        && s.reply.envelope.data.view.Nested?
        && s.reply.envelope.data.view.user.password.Deleted?
        && Profile(s.reply.envelope.data.view.user) == Profile(s.rows[email])
        && s.reply.envelope.data.token.claims == s.reply.envelope.data.view.user
        && Verify(s.reply.envelope.data.token, cfg.secret) == Some(s.reply.envelope.data.view.user)
  {
  }

  /**
   * A failing hash settles the reply as 400, yet the record is still
   * inserted, with an undefined password.
   */
  lemma RegisterHashFailureStillInserts(rows: map<string, User>, cfg: Config, values: SignUpRequest,
                                        formats: Formats, o: RegisterOracle)
    requires SignUpAccepted(values, formats) && o.lookupFault.None? && values.email.value !in rows
    requires o.salt.Some? && o.hashFault && o.insertFault.None?
    ensures var s := RegisterOutcome(rows, cfg, values, formats, o);
      && s.reply == Resolved(Envelope(400, Registering, Text(AnErrorOccured)))
      && values.email.value in s.rows
      && s.rows[values.email.value].password == Undefined
      && s.rows[values.email.value].userId == o.newId
  {
  }

  /**
   * A failing insert changes nothing in the store. The reply is the first
   * envelope resolved: the hash failure's 400 if there was one, otherwise
   * 500 for an internal error and 400 " occured!" for any other.
   */
  lemma RegisterInsertFailure(rows: map<string, User>, cfg: Config, values: SignUpRequest,
                              formats: Formats, o: RegisterOracle)
    requires SignUpAccepted(values, formats) && o.lookupFault.None? && values.email.value !in rows
    requires o.salt.Some? && o.insertFault.Some?
    ensures var s := RegisterOutcome(rows, cfg, values, formats, o);
      && s.rows == rows
      && s.reply == Resolved(
           if o.hashFault then Envelope(400, Registering, Text(AnErrorOccured))
           else if o.insertFault.value.InternalServerError? then
             Envelope(500, RegisteringInternal, Text(o.insertFault.value.message))
           else Envelope(400, Registering, Text(Occured)))
  {
  }

  /**
   * Once a hash failure has stored an undefined password, that email can
   * never sign in (the promise stays pending) and never register again.
   */
  lemma HashFailureLocksAccount(rows: map<string, User>, cfg: Config, values: SignUpRequest,
                                formats: Formats, o: RegisterOracle,
                                password: Option<string>, so: SignInOracle,
                                again: SignUpRequest, o2: RegisterOracle)
    requires SignUpAccepted(values, formats) && o.lookupFault.None? && values.email.value !in rows
    requires o.salt.Some? && o.hashFault && o.insertFault.None?
    requires SignInAccepted(values.email, password) && so.lookupFault.None?
    requires SignUpAccepted(again, formats) && again.email == values.email && o2.lookupFault.None?
    ensures var after := RegisterOutcome(rows, cfg, values, formats, o).rows;
      && SignInOutcome(after, cfg, values.email, password, so) == Pending
      && RegisterOutcome(after, cfg, again, formats, o2)
         == Step(Resolved(Envelope(400, AlreadyExists, Text(AlreadyExistsDetail))), after)
  {
  }

  /**
   * Registration only ever adds the request's email: the keying of the
   * store by email is kept, no record is changed or removed, and the
   * store grows by at most one record.
   */
  lemma RegisterOnlyAdds(rows: map<string, User>, cfg: Config, values: SignUpRequest,
                         formats: Formats, o: RegisterOracle)
    requires KeyedByEmail(rows)
    ensures var after := RegisterOutcome(rows, cfg, values, formats, o).rows;
      && KeyedByEmail(after)
      && (forall e :: e in rows ==> e in after && after[e] == rows[e])
      && (forall e :: e in after && e !in rows ==> values.email == Some(e))
      && |after| <= |rows| + 1
  {
  }

  /** No two records share a user id. */
  ghost predicate IdsUnique(rows: map<string, User>)
  {
    forall e, e' :: e in rows && e' in rows && e != e' ==> rows[e].userId != rows[e'].userId
  }

  /** A fresh `uuid.v4()` keeps user ids unique. */
  lemma RegisterKeepsIdsUnique(rows: map<string, User>, cfg: Config, values: SignUpRequest,
                               formats: Formats, o: RegisterOracle)
    requires IdsUnique(rows)
    requires forall e :: e in rows ==> rows[e].userId != o.newId
    ensures IdsUnique(RegisterOutcome(rows, cfg, values, formats, o).rows)
  {
  }

  // ---------------------------------------------------------------------
  // Sequences of calls

  datatype Call =
    | SignInCall(email: Option<string>, password: Option<string>, so: SignInOracle)
    | RegisterCall(values: SignUpRequest, ro: RegisterOracle)

  /** The store after serving `calls` one after another. */
  function Replay(rows: map<string, User>, cfg: Config, formats: Formats, calls: seq<Call>): map<string, User>
    decreases |calls|
  {
    if calls == [] then rows
    else
      var next := match calls[0]
        case SignInCall(_, _, _) => rows
        case RegisterCall(values, ro) => RegisterOutcome(rows, cfg, values, formats, ro).rows;
      Replay(next, cfg, formats, calls[1..])
  }

  /**
   * Over any sequence of sign-ins and registrations, records are created
   * once and never changed or deleted, the store stays keyed by email,
   * and it grows by at most one record per call.
   */
  lemma {:induction false} ReplayOnlyAdds(rows: map<string, User>, cfg: Config, formats: Formats,
                                          calls: seq<Call>)
    requires KeyedByEmail(rows)
    ensures var after := Replay(rows, cfg, formats, calls);
      && KeyedByEmail(after)
      && (forall e :: e in rows ==> e in after && after[e] == rows[e])
      && |after| <= |rows| + |calls|
    decreases |calls|
  {
    if calls != [] {
      var next := match calls[0]
        case SignInCall(_, _, _) => rows
        case RegisterCall(values, ro) => RegisterOutcome(rows, cfg, values, formats, ro).rows;
      if calls[0].RegisterCall? {
        RegisterOnlyAdds(rows, cfg, calls[0].values, formats, calls[0].ro);
      }
      ReplayOnlyAdds(next, cfg, formats, calls[1..]);
    }
  }

  /**
   * Register, then sign in with the same email: the right password is
   * answered 200 with the new record (less its password) and a token; a
   * wrong password of acceptable length is never answered.
   */
  lemma RegisterThenSignIn(rows: map<string, User>, cfg: Config, values: SignUpRequest,
                           formats: Formats, o: RegisterOracle, wrong: string)
    requires SignUpAccepted(values, formats) && values.email.value !in rows && Smooth(o)
    requires wrong != values.password.value && MinPasswordLength <= Utf16Length(wrong) <= MaxPasswordLength
    ensures var after := RegisterOutcome(rows, cfg, values, formats, o).rows;
      var stored := after[values.email.value];
      && SignInOutcome(after, cfg, values.email, values.password, SignInOracle(None, false))
         == Resolved(Envelope(200, SignedInMessage, Session(Flat(WithoutPassword(stored)), Sign(stored, cfg))))
      && SignInOutcome(after, cfg, values.email, Some(wrong), SignInOracle(None, false)) == Pending
  {
  }
}
