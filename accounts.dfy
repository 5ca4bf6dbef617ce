/**
 * The user record and the account store behind `userRepository`: a table
 * of users keyed by email, read by `getUser` and extended by
 * `registerUser`.
 */
module Accounts {

  import opened Wrappers
  import Crypto

  /**
   * The `password` property of a user object: a bcrypt digest, the
   * `undefined` that a failed hash leaves behind, or no property at all
   * once `delete user.password` has run.
   */
  datatype PasswordField = Hashed(digest: Crypto.Digest) | Undefined | Deleted

  datatype User = User(
    userId: string,
    firstName: string,
    lastName: string,
    birthday: string,
    phoneNumber: string,
    address: string,
    email: string,
    city: string,
    password: PasswordField)

  /** Every property of a user except `password`, in declaration order. */
  function Profile(u: User): seq<string>
  {
    [u.userId, u.firstName, u.lastName, u.birthday, u.phoneNumber, u.address, u.email, u.city]
  }

  /** A copy of `u` after `delete u.password`. */
  function WithoutPassword(u: User): (r: User)
    ensures r.password.Deleted?
    ensures Profile(r) == Profile(u)
  {
    u.(password := Deleted)
  }

  /** The stored password as bcrypt sees it: a digest, or not a string at all. */
  function StoredDigest(p: PasswordField): Option<Crypto.Digest>
  {
    if p.Hashed? then Some(p.digest) else None
  }

  /** The failures the repository reports by throwing. */
  datatype StoreError = InternalServerError(message: string) | OtherError

  /** What `await getUser(email)` produces: a thrown error or the matching rows. */
  datatype Query = Thrown(error: StoreError) | Rows(rows: seq<User>)

  /** The store's key is each record's own email. */
  ghost predicate KeyedByEmail(rows: map<string, User>)
  {
    forall e :: e in rows ==> rows[e].email == e
  }

  class AccountStore {
    var rows: map<string, User>

    ghost predicate Valid()
      reads this
    {
      KeyedByEmail(rows)
    }

    constructor ()
      ensures Valid() && rows == map[]
    {
      rows := map[];
    }

    /**
     * `getUser(email)`: throws `fault` when there is one, otherwise
     * returns the rows whose email is `email` (none, or the one record).
     */
    method GetUser(email: string, fault: Option<StoreError>) returns (q: Query)
      requires Valid()
      ensures fault.Some? ==> q == Thrown(fault.value)
      ensures fault.None? ==> q.Rows? && (|q.rows| == 0 <==> email !in rows)
      ensures fault.None? ==> forall u :: u in q.rows ==> u.email == email && u == rows[email]
    {
      if fault.Some? {
        q := Thrown(fault.value);
      } else if email in rows {
        q := Rows([rows[email]]);
      } else {
        q := Rows([]);
      }
    }

    /**
     * `registerUser(user)`: throws `fault` when there is one, otherwise
     * inserts the record under its email. The service only calls it for
     * an email the store does not hold.
     */
    method RegisterUser(user: User, fault: Option<StoreError>) returns (thrown: Option<StoreError>)
      requires Valid() && user.email !in rows
      modifies this
      ensures Valid()
      ensures thrown == fault
      ensures rows == if fault.None? then old(rows)[user.email := user] else old(rows)
    {
      thrown := fault;
      if fault.None? {
        rows := rows[user.email := user];
      }
    }
  }
}
