/** The user registry behind `POST /signup` and `POST /login`. Password hashing (bcrypt) is
    a pair of function values; the signed session token (JWT) is a symbolic value that records
    its claims, the signing secret and the lifetime. */
module Users {
  import opened Tables

  /** A row of the `users` table; `password` holds the bcrypt digest. */
  datatype User = User(id: nat, email: string, username: string, password: string)

  /** bcrypt: `hash(password, rounds, salt)` with the salt bcrypt draws itself, and
      `compare(password, digest)`. */
  datatype PasswordHasher = PasswordHasher(
    hash: (string, nat, string) -> string,
    compare: (string, string) -> bool)

  /** The one property of bcrypt the routes rely on: a password matches its own digest. */
  ghost predicate IsSound(h: PasswordHasher) {
    forall p, rounds, salt :: h.compare(p, h.hash(p, rounds, salt))
  }

  /** The cost factor passed to `bcrypt.hash`. */
  const SaltRounds: nat := 10

  /** The JWT payload `{ id, email, username }`. */
  datatype Claims = Claims(id: nat, email: string, username: string)

  /** `jwt.sign(claims, secret, { expiresIn })`. */
  datatype Token = Jwt(claims: Claims, secret: string, expiresIn: string)

  const TokenLifetime: string := "1h"

  const FillAllFields: string := "Please fill out all fields"
  const PasswordsDoNotMatch: string := "Passwords do not match"
  const AlreadyExists: string := "Email or username already exists"
  const UserRegistered: string := "User registered successfully"
  const IdentifierRequired: string := "Email or Username is required."
  const PasswordRequired: string := "Password is required."
  const InvalidCredentials: string := "Invalid credentials."
  const LoginSuccessful: string := "Login successful"

  /** The JSON body of a signup response. */
  datatype SignupReply = SignupError(error: string) | SignupOk(message: string, userId: nat)

  /** The JSON body of a login response. */
  datatype LoginReply = LoginError(error: string) | LoginOk(message: string, token: Token)

  /** Some signup field is empty or missing. */
  predicate MissingSignupField(email: string, username: string, password: string, confirmPassword: string) {
    email == "" || username == "" || password == "" || confirmPassword == ""
  }

  /** Some row already has this email or this username. */
  predicate Taken(rows: seq<User>, email: string, username: string) {
    exists i | 0 <= i < |rows| :: rows[i].email == email || rows[i].username == username
  }

  /** `WHERE email = ? OR username = ?` of the signup check. */
  function EmailOrUsername(email: string, username: string): User -> bool {
    (u: User) => u.email == email || u.username == username
  }

  /** `WHERE email = ? OR username = ?` of the login lookup, whose parameters are
      `email || null` and `username || null`: a NULL parameter matches no row. */
  function LoginMatcher(email: string, username: string): (m: User -> bool)
    ensures email == "" && username == "" ==> forall u :: !m(u)
    ensures email == "" ==> forall u: User :: m(u) ==> u.username == username
    ensures username == "" ==> forall u: User :: m(u) ==> u.email == email
    ensures forall u :: m(u) ==> EmailOrUsername(email, username)(u)
    ensures forall u: User :: u.email == email && email != "" ==> m(u)
    ensures forall u: User :: u.username == username && username != "" ==> m(u)
  {
    (u: User) => (email != "" && u.email == email) || (username != "" && u.username == username)
  }

  /** Row `k` is the first row the login lookup finds. */
  predicate IsFirstLoginMatch(rows: seq<User>, email: string, username: string, k: int) {
    && 0 <= k < |rows|
    && LoginMatcher(email, username)(rows[k])
    && forall j | 0 <= j < k :: !LoginMatcher(email, username)(rows[j])
  }

  function ClaimsOf(u: User): Claims {
    Claims(u.id, u.email, u.username)
  }

  /** No two users share an id, an email or a username. */
  ghost predicate IdentitiesUnique(rows: seq<User>) {
    forall i, j | 0 <= i < j < |rows| ::
      rows[i].id != rows[j].id && rows[i].email != rows[j].email && rows[i].username != rows[j].username
  }

  /** Status and body of `POST /login` against the table `rows`. */
  function LoginResponse(rows: seq<User>, email: string, username: string, password: string,
                         compare: (string, string) -> bool, secret: string): (r: (nat, LoginReply))
    ensures r.0 == 200 || r.0 == 400 || r.0 == 401
    ensures r.0 == 400 <==> (email == "" && username == "") || password == ""
    ensures r.0 == 400 ==>
      r.1 == LoginError(if email == "" && username == "" then IdentifierRequired else PasswordRequired)
    ensures r.0 == 401 ==> r.1 == LoginError(InvalidCredentials)
    ensures r.0 == 200 <==>
      r.0 != 400 && exists k :: IsFirstLoginMatch(rows, email, username, k) && compare(password, rows[k].password)
    ensures r.0 == 200 ==>
      exists k :: IsFirstLoginMatch(rows, email, username, k)
               && r.1 == LoginOk(LoginSuccessful, Jwt(ClaimsOf(rows[k]), secret, TokenLifetime))
  {
    if email == "" && username == "" then (400, LoginError(IdentifierRequired))
    else if password == "" then (400, LoginError(PasswordRequired))
    else
      var results := Where(rows, LoginMatcher(email, username));
      LoginLookup(rows, email, username);
      if |results| == 0 then (401, LoginError(InvalidCredentials))
      else
        var user := results[0];
        if !compare(password, user.password) then (401, LoginError(InvalidCredentials))
        else (200, LoginOk(LoginSuccessful, Jwt(ClaimsOf(user), secret, TokenLifetime)))
  }

  /** The login lookup returns the first matching row, and there is exactly one first match
      when it returns anything. */
  lemma LoginLookup(rows: seq<User>, email: string, username: string)
    ensures var results := Where(rows, LoginMatcher(email, username));
      && (results == [] ==> forall k :: !IsFirstLoginMatch(rows, email, username, k))
      && (results != [] ==> exists k :: IsFirstLoginMatch(rows, email, username, k) && rows[k] == results[0])
      && (forall k, k' :: IsFirstLoginMatch(rows, email, username, k) && IsFirstLoginMatch(rows, email, username, k') ==> k == k')
  {
    var results := Where(rows, LoginMatcher(email, username));
    forall k | IsFirstLoginMatch(rows, email, username, k) ensures results != [] {
      assert rows[k] in results;
    }
    if results != [] {
      WhereFirst(rows, LoginMatcher(email, username));
    }
  }

  /** A user who has just signed up can log in with the same email, or the same username, and
      the token names that user. */
  lemma {:induction false} SignedUpUserCanLogIn(rows: seq<User>, email: string, username: string,
                                                 password: string, hasher: PasswordHasher, salt: string,
                                                 id: nat, secret: string)
    requires email != "" && username != "" && password != ""
    requires !Taken(rows, email, username)
    requires IsSound(hasher)
    ensures var table := rows + [User(id, email, username, hasher.hash(password, SaltRounds, salt))];
            var ok := (200, LoginOk(LoginSuccessful, Jwt(Claims(id, email, username), secret, TokenLifetime)));
            && LoginResponse(table, email, "", password, hasher.compare, secret) == ok
            && LoginResponse(table, "", username, password, hasher.compare, secret) == ok
  {
    var user := User(id, email, username, hasher.hash(password, SaltRounds, salt));
    var table := rows + [user];
    assert hasher.compare(password, hasher.hash(password, SaltRounds, salt));
    WhereAppend(rows, [user], LoginMatcher(email, ""));
    WhereNone(rows, LoginMatcher(email, ""));
    assert Where(table, LoginMatcher(email, "")) == [user];
    WhereAppend(rows, [user], LoginMatcher("", username));
    WhereNone(rows, LoginMatcher("", username));
    assert Where(table, LoginMatcher("", username)) == [user];
  }

  /** The `users` table with its auto-increment counter. */
  class UserTable {
    var rows: seq<User>
    var nextId: nat

    /** Ids are below the counter, and ids, emails and usernames are each unique. */
    ghost predicate Valid()
      reads this
    {
      && 1 <= nextId
      && IdentitiesUnique(rows)
      && forall i | 0 <= i < |rows| :: 1 <= rows[i].id < nextId
    }

    constructor ()
      ensures Valid() && rows == [] && nextId == 1
    {
      rows := [];
      nextId := 1;
    }

    /** `POST /signup`: the checks run in the order empty field, password mismatch, existing
        email or username. Each failure answers 400 and leaves the table unchanged; success
        inserts exactly one row and answers 201 with its id. */
    method Signup(email: string, username: string, password: string, confirmPassword: string,
                  hasher: PasswordHasher, salt: string) returns (status: nat, reply: SignupReply)
      requires Valid()
      modifies this
      ensures Valid()
      ensures MissingSignupField(email, username, password, confirmPassword) ==>
        status == 400 && reply == SignupError(FillAllFields) && unchanged(this)
      ensures !MissingSignupField(email, username, password, confirmPassword) && password != confirmPassword ==>
        status == 400 && reply == SignupError(PasswordsDoNotMatch) && unchanged(this)
      ensures !MissingSignupField(email, username, password, confirmPassword) && password == confirmPassword
              && Taken(old(rows), email, username) ==>
        status == 400 && reply == SignupError(AlreadyExists) && unchanged(this)
      ensures !MissingSignupField(email, username, password, confirmPassword) && password == confirmPassword
              && !Taken(old(rows), email, username) ==>
        && status == 201 && reply == SignupOk(UserRegistered, old(nextId))
        && rows == old(rows) + [User(old(nextId), email, username, hasher.hash(password, SaltRounds, salt))]
        && nextId == old(nextId) + 1
    {
      if email == "" || username == "" || password == "" || confirmPassword == "" {
        return 400, SignupError(FillAllFields);
      }
      if password != confirmPassword {
        return 400, SignupError(PasswordsDoNotMatch);
      }
      var existingUsers := Where(rows, EmailOrUsername(email, username));
      if |existingUsers| > 0 {
        assert EmailOrUsername(email, username)(existingUsers[0]);
        return 400, SignupError(AlreadyExists);
      }
      forall i | 0 <= i < |rows| ensures !EmailOrUsername(email, username)(rows[i]) {
        var u := rows[i];
        assert EmailOrUsername(email, username)(u) ==> u in existingUsers;
      }
      var hashedPassword := hasher.hash(password, SaltRounds, salt);
      var insertId := nextId;
      rows := rows + [User(insertId, email, username, hashedPassword)];
      nextId := nextId + 1;
      return 201, SignupOk(UserRegistered, insertId);
    }

    /** `POST /login`. */
    method Login(email: string, username: string, password: string,
                 compare: (string, string) -> bool, secret: string) returns (status: nat, reply: LoginReply)
      requires Valid()
      ensures (status, reply) == LoginResponse(rows, email, username, password, compare, secret)
    {
      if email == "" && username == "" {
        return 400, LoginError(IdentifierRequired);
      }
      if password == "" {
        return 400, LoginError(PasswordRequired);
      }
      var results := Where(rows, LoginMatcher(email, username));
      if |results| == 0 {
        return 401, LoginError(InvalidCredentials);
      }
      var user := results[0];
      var isMatch := compare(password, user.password);
      if !isMatch {
        return 401, LoginError(InvalidCredentials);
      }
      return 200, LoginOk(LoginSuccessful, Jwt(ClaimsOf(user), secret, TokenLifetime));
    }
  }
}
