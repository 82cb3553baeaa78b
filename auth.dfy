/**
 * The account side (auth.controller.ts): sign-up, sign-in, one-time codes by email and
 * profile updates.  Password hashing and its check are parameters (`hash`, `check`);
 * the token is the one of module Jwt.
 */
module Auth {
  import opened Wrappers
  import opened Tables
  import opened Entities
  import opened Http
  import opened Store
  import opened Jwt

  /** The sign-up request (CreateUserDto). */
  datatype SignUpFields = SignUpFields(name: string, email: string, password: string, mobile: string)

  function UserWithEmailOrMobile(email: string, mobile: string): User -> bool {
    (u: User) => u.email == email || u.mobile == mobile
  }

  /** `User.findOne({ where: { [Op.or]: [{ email }, { mobile }] } })` finds someone. */
  function Taken(users: seq<User>, email: string, mobile: string): (r: bool)
    ensures r <==> exists u :: u in users && (u.email == email || u.mobile == mobile)
  {
    FindFirst(users, UserWithEmailOrMobile(email, mobile)).Some?
  }

  /**
   * signUp (auth.controller.ts:24-70).  An email or a mobile already registered is refused
   * with 400 and nothing is created; otherwise one user with the hashed password and then
   * one cart owned by that user are created, and the answer is 201.
   */
  method SignUp(db: Database, fields: SignUpFields, hash: string -> string) returns (out: Outcome)
    requires db.Valid()
    modifies db`users, db`nextUserId, db`carts, db`nextCartId
    ensures db.Valid()
    ensures Taken(old(db.users), fields.email, fields.mobile) ==>
      out == Reply(400, "User already exists") &&
      db.users == old(db.users) && db.carts == old(db.carts)
    ensures !Taken(old(db.users), fields.email, fields.mobile) ==>
      out == Reply(201, "Sign-up Successful") &&
      db.users == old(db.users) + [User(old(db.nextUserId), fields.name, fields.email,
                                        hash(fields.password), fields.mobile, None)] &&
      db.carts == old(db.carts) + [Cart(old(db.nextCartId), old(db.nextUserId))]
  {
    if Taken(db.users, fields.email, fields.mobile) {
      return Reply(400, "User already exists");
    }
    var user := User(db.nextUserId, fields.name, fields.email, hash(fields.password), fields.mobile, None);
    AppendFresh(db.users, user, UserId);
    AppendFresh(db.users, user, UserEmail);
    AppendFresh(db.users, user, UserMobile);
    db.users := db.users + [user];
    db.nextUserId := db.nextUserId + 1;
    var cart := Cart(db.nextCartId, user.id);
    AppendFresh(db.carts, cart, CartId);
    AppendFresh(db.carts, cart, CartOwner);
    db.carts := db.carts + [cart];
    db.nextCartId := db.nextCartId + 1;
    return Reply(201, "Sign-up Successful");
  }

  /** JavaScript truthiness of an optional string. */
  predicate Truthy(s: Option<string>) { s.Some? && s.value != "" }

  /** The user signIn looks for: by email when one is given, else by mobile.  (`email`
      None stands for every falsy value, `undefined` and `null` alike.)  A `null` mobile
      is `mobile IS NULL`, which no row of the `NOT NULL` column satisfies. */
  predicate Identifies(u: User, email: Option<string>, mobile: Field<string>) {
    if Truthy(email) then u.email == email.value else mobile.Given? && u.mobile == mobile.value
  }

  /** The outcome of signIn and the token it hands out, if any. */
  datatype SignInResult = SignInResult(outcome: Outcome, token: Option<Token>)

  /** The lookup of signIn: None when the `where` value is undefined (the ORM throws). */
  function SignInLookup(users: seq<User>, email: Option<string>, mobile: Field<string>): Option<Option<User>> {
    if Truthy(email) then Some(FindFirst(users, UserWithEmail(email.value)))
    else match mobile
      case Given(m) => Some(FindFirst(users, UserWithMobile(m)))
      case NullValue => Some(None)
      case Absent => None
  }

  /**
   * signIn (auth.controller.ts:72-107).  No token is issued to an unknown user (404), to
   * a user whose `isVerified` is false, or on a wrong password (401); otherwise the token
   * carries exactly the user's id.  A `null` mobile finds nobody (404).  No email and no
   * mobile is an `undefined` in the
   * `where` clause (500).
   */
  function SignIn(users: seq<User>, email: Option<string>, mobile: Field<string>,
                  password: string, check: (string, string) -> bool, secret: string): (r: SignInResult)
    ensures r.token.Some? <==> r.outcome == Reply(200, "Sign-in successful")
    ensures r.token.Some? ==> exists u :: (u in users && Identifies(u, email, mobile) &&
      check(password, u.password) && r.token.value == Encode(Claims(Some(u.id), None), secret))
    ensures r.outcome == Forward(500) <==> !Truthy(email) && mobile.Absent?
    ensures r.outcome == Reply(404, "Please verify your email") <==>
      (Truthy(email) || !mobile.Absent?) && forall u :: u in users ==> !Identifies(u, email, mobile)
    ensures r.outcome == Reply(401, "Invalid password") ==>
      exists u :: u in users && Identifies(u, email, mobile) && !check(password, u.password)
  {
    match SignInLookup(users, email, mobile)
    case None => SignInResult(Forward(500), None)
    case Some(None) => SignInResult(Reply(404, "Please verify your email"), None)
    case Some(Some(u)) =>
      if u.isVerified == Some(false) then SignInResult(Reply(200, "Please verify you email first"), None)
      else if !check(password, u.password) then SignInResult(Reply(401, "Invalid password"), None)
      else SignInResult(Reply(200, "Sign-in successful"), Some(Encode(Claims(Some(u.id), None), secret)))
  }

  /** In a valid user table, the user a request identifies gets a token for exactly its
      id when the password checks, and "Invalid password" otherwise. */
  lemma SignInDecides(users: seq<User>, u: User, email: Option<string>, mobile: Field<string>,
                      password: string, check: (string, string) -> bool, secret: string)
    requires DistinctBy(users, UserEmail) && DistinctBy(users, UserMobile)
    requires forall v :: v in users ==> v.isVerified != Some(false)
    requires u in users && Identifies(u, email, mobile)
    ensures check(password, u.password) ==>
      SignIn(users, email, mobile, password, check, secret).token == Some(Encode(Claims(Some(u.id), None), secret))
    ensures !check(password, u.password) ==>
      SignIn(users, email, mobile, password, check, secret).outcome == Reply(401, "Invalid password")
  {
    var found := SignInLookup(users, email, mobile);
    if Truthy(email) {
      DistinctByMembers(users, UserEmail, u, found.value.value);
    } else {
      DistinctByMembers(users, UserMobile, u, found.value.value);
    }
  }

  /** Nothing ever stores `isVerified = false`, so the "verify first" answer is never given. */
  lemma SignInNeverAsksToVerify(users: seq<User>, email: Option<string>, mobile: Field<string>,
                                password: string, check: (string, string) -> bool, secret: string)
    requires forall v :: v in users ==> v.isVerified != Some(false)
    ensures SignIn(users, email, mobile, password, check, secret).outcome != Reply(200, "Please verify you email first")
  {
    var found := SignInLookup(users, email, mobile);
    if found.Some? && found.value.Some? {
      assert found.value.value in users;
    }
  }

  /** A user who has just signed up signs in with its email and password. */
  lemma SignUpThenSignIn(users: seq<User>, fields: SignUpFields, id: int, hash: string -> string,
                         check: (string, string) -> bool, secret: string)
    requires !Taken(users, fields.email, fields.mobile) && fields.email != ""
    requires check(fields.password, hash(fields.password))
    ensures var u := User(id, fields.name, fields.email, hash(fields.password), fields.mobile, None);
      SignIn(users + [u], Some(fields.email), Absent, fields.password, check, secret).token ==
      Some(Encode(Claims(Some(id), None), secret))
  {
    var u := User(id, fields.name, fields.email, hash(fields.password), fields.mobile, None);
    FindFirstSkip(users, [u], UserWithEmail(fields.email));
  }

  /** The range `GenerateOTP.generate` draws from: six-digit integers. */
  const OTP_MIN: int := 100000
  const OTP_MAX: int := 999999

  /**
   * sendOtp (auth.controller.ts:198-240).  The code is appended as a new row for the
   * email; earlier rows stay.  The user lookup is not awaited, so an unknown email is not
   * refused.  Without an email the row violates NOT NULL (500).
   */
  method SendOtp(db: Database, email: Option<string>, otp: int) returns (out: Outcome)
    requires db.Valid()
    requires OTP_MIN <= otp <= OTP_MAX
    modifies db`otps, db`nextOtpId
    ensures db.Valid()
    ensures email.None? ==> out == Forward(500) && db.otps == old(db.otps)
    ensures email.Some? ==>
      out == Reply(200, "Please check your email and verify to continue") &&
      db.otps == old(db.otps) + [Otp(old(db.nextOtpId), email.value, otp)]
  {
    if email.None? {
      return Forward(500);
    }
    var row := Otp(db.nextOtpId, email.value, otp);
    AppendFresh(db.otps, row, OtpId);
    db.otps := db.otps + [row];
    db.nextOtpId := db.nextOtpId + 1;
    return Reply(200, "Please check your email and verify to continue");
  }

  /** The code verifyUser compares with: that of `Otp.findOne({ where: { email } })`, the
      first row for the email in table order. */
  function StoredOtp(otps: seq<Otp>, email: string): (r: Option<int>)
    ensures r.None? <==> forall o :: o in otps ==> o.email != email
    ensures r.Some? ==> exists o :: o in otps && o.email == email && o.otp == r.value
  {
    match FindFirst(otps, OtpFor(email))
    case Some(o) => Some(o.otp)
    case None => None
  }

  /** The first code sent to an email is the one compared. */
  lemma FirstCodeIsStored(otps: seq<Otp>, row: Otp)
    requires forall o :: o in otps ==> o.email != row.email
    ensures StoredOtp(otps + [row], row.email) == Some(row.otp)
  {
    FindFirstSkip(otps, [row], OtpFor(row.email));
  }

  /** Sending another code leaves the compared code as it was: a resent code is never the
      one verifyUser accepts while an older row for the email exists. */
  lemma ResentCodeIgnored(otps: seq<Otp>, row: Otp)
    requires StoredOtp(otps, row.email).Some?
    ensures StoredOtp(otps + [row], row.email) == StoredOtp(otps, row.email)
  {
    FindFirstAppend(otps, [row], OtpFor(row.email));
  }

  /** The code of the most recent row for the email. */
  function LatestOtp(otps: seq<Otp>, email: string): (r: Option<int>)
    ensures r.None? <==> forall o :: o in otps ==> o.email != email
    ensures r.Some? ==> exists o :: o in otps && o.email == email && o.otp == r.value
    decreases |otps|
  {
    if otps == [] then None
    else
      var last := otps[|otps| - 1];
      assert otps == otps[..|otps| - 1] + [last];
      if last.email == email then Some(last.otp) else LatestOtp(otps[..|otps| - 1], email)
  }

  /** Compared with the latest row, the code just sent is the one accepted. */
  lemma LatestCodeIsCompared(otps: seq<Otp>, row: Otp)
    ensures LatestOtp(otps + [row], row.email) == Some(row.otp)
  {
    assert (otps + [row])[..|otps + [row]| - 1] == otps;
  }

  /**
   * verifyUser (auth.controller.ts:242-254).  A code other than the stored one is refused
   * with 401 and nothing changes; the stored code removes every code row for the email
   * and answers 200.  `User.update({ isVerified: true })` names no declared column, so the
   * ORM drops the value, is left with only the timestamp and issues no query: the users
   * table never changes.  With no row for the email (or no email) the handler fails
   * outside any try block and never answers.
   */
  method VerifyUser(db: Database, email: Option<string>, otp: Option<int>) returns (out: Outcome)
    requires db.Valid()
    modifies db`otps
    ensures db.Valid()
    ensures email.None? || StoredOtp(old(db.otps), email.value).None? ==>
      out == Unanswered && db.otps == old(db.otps)
    ensures email.Some? && StoredOtp(old(db.otps), email.value).Some? &&
            otp != StoredOtp(old(db.otps), email.value) ==>
      out == Reply(401, "Please verify your otp") && db.otps == old(db.otps)
    ensures email.Some? && StoredOtp(old(db.otps), email.value).Some? &&
            otp == StoredOtp(old(db.otps), email.value) ==>
      out == Reply(200, "User is verified") &&
      db.otps == Where(old(db.otps), OtpNotFor(email.value)) &&
      (forall o :: o in db.otps <==> o in old(db.otps) && o.email != email.value) &&
      StoredOtp(db.otps, email.value).None?
  {
    if email.None? {
      return Unanswered;
    }
    var stored := StoredOtp(db.otps, email.value);
    if stored.None? {
      return Unanswered;
    }
    if otp != stored {
      return Reply(401, "Please verify your otp");
    }
    var otps := db.otps;
    WhereDistinct(otps, OtpNotFor(email.value), OtpId);
    db.otps := Where(otps, OtpNotFor(email.value));
    return Reply(200, "User is verified");
  }

  /** The updateProfile request (UpdateProfileDto): each field absent, `null` or a value. */
  datatype ProfileChanges = ProfileChanges(email: Field<string>, mobile: Field<string>, name: Field<string>)

  /** Some written field is `null`.  name, email and mobile are all `allowNull: false`, so
      `User.update` throws a validation error before any statement runs. */
  predicate HasNull(changes: ProfileChanges) {
    changes.email.NullValue? || changes.mobile.NullValue? || changes.name.NullValue?
  }

  /** The user after `User.update({ email, mobile, name })`. */
  function Edited(changes: ProfileChanges): User -> User
    requires !HasNull(changes)
  {
    (u: User) => u.(email := Apply(changes.email, u.email),
                    mobile := Apply(changes.mobile, u.mobile),
                    name := Apply(changes.name, u.name))
  }

  /** Another user already holds the new email or the new mobile. */
  function ClashWith(userId: int, changes: ProfileChanges): User -> bool {
    (v: User) => v.id != userId && (changes.email == Given(v.email) || changes.mobile == Given(v.mobile))
  }

  /** The update would break a unique index: the database refuses it. */
  function Clashes(users: seq<User>, userId: int, changes: ProfileChanges): (r: bool)
    ensures r <==> exists v :: (v in users && v.id != userId &&
      (changes.email == Given(v.email) || changes.mobile == Given(v.mobile)))
  {
    FindFirst(users, ClashWith(userId, changes)).Some?
  }

  /**
   * updateProfile (auth.controller.ts:171-196).  An unknown caller is answered 404
   * "Unauthorized"; a `null` field, or an email or mobile another user holds, makes the
   * update fail (500) with nothing written; otherwise the caller's row gets the given
   * fields and no other row changes.
   */
  method UpdateProfile(db: Database, userId: int, changes: ProfileChanges) returns (out: Outcome)
    requires db.Valid()
    modifies db`users
    ensures db.Valid()
    ensures FindFirst(old(db.users), UserWithId(userId)).None? ==>
      out == Reply(404, "Unauthorized") && db.users == old(db.users)
    ensures FindFirst(old(db.users), UserWithId(userId)).Some? &&
            (HasNull(changes) || Clashes(old(db.users), userId, changes)) ==>
      out == Forward(500) && db.users == old(db.users)
    ensures FindFirst(old(db.users), UserWithId(userId)).Some? &&
            !HasNull(changes) && !Clashes(old(db.users), userId, changes) ==>
      out == Reply(200, "Update successful") &&
      db.users == UpdateWhere(old(db.users), UserWithId(userId), Edited(changes))
  {
    if FindFirst(db.users, UserWithId(userId)).None? {
      return Reply(404, "Unauthorized");
    }
    if HasNull(changes) || Clashes(db.users, userId, changes) {
      return Forward(500);
    }
    var users := db.users;
    var p, f := UserWithId(userId), Edited(changes);
    assert forall u :: UserId(f(u)) == UserId(u);
    UpdateWhereDistinct(users, p, f, UserId);
    UpdateWhereKeysBelow(users, p, f, UserId, db.nextUserId);
    AtMostOneWithId(users, userId);
    EditedKeepsUnique(users, userId, changes);
    UpdateOneDistinct(users, p, f, UserEmail);
    UpdateOneDistinct(users, p, f, UserMobile);
    UpdateWhereMembers(users, p, f);
    db.users := UpdateWhere(users, p, f);
    return Reply(200, "Update successful");
  }

  /** A primary key matches at most one row. */
  lemma AtMostOneWithId(users: seq<User>, userId: int)
    requires DistinctBy(users, UserId)
    ensures forall i, j :: 0 <= i < j < |users| ==> !(UserWithId(userId)(users[i]) && UserWithId(userId)(users[j]))
  {
    forall i, j | 0 <= i < j < |users| ensures !(UserWithId(userId)(users[i]) && UserWithId(userId)(users[j])) {
      assert UserId(users[i]) != UserId(users[j]);
    }
  }

  /** Without a clash, the edited row's email and mobile are no other row's. */
  lemma EditedKeepsUnique(users: seq<User>, userId: int, changes: ProfileChanges)
    requires DistinctBy(users, UserEmail) && DistinctBy(users, UserMobile)
    requires !HasNull(changes) && !Clashes(users, userId, changes)
    ensures forall x, y :: x in users && y in users && UserWithId(userId)(x) && !UserWithId(userId)(y) ==>
      UserEmail(Edited(changes)(x)) != UserEmail(y) && UserMobile(Edited(changes)(x)) != UserMobile(y)
  {
    forall x, y | x in users && y in users && UserWithId(userId)(x) && !UserWithId(userId)(y)
      ensures UserEmail(Edited(changes)(x)) != UserEmail(y) && UserMobile(Edited(changes)(x)) != UserMobile(y)
    {
      assert x != y;
      DistinctByKeys(users, UserEmail, x, y);
      DistinctByKeys(users, UserMobile, x, y);
    }
  }
}
