/**
 * The file-storage branches of the `/signup`, `/login`, `/validate` and `/google` handlers of
 * backend/routes/auth.js: the branch each takes while the document database is not connected.
 * The `users` array is the state; each handler is one atomic step that reads it and, for
 * signup and Google sign-in, may append one record to it.
 */
module Auth {
  import opened Options
  import opened Users
  import opened Text

  /** What Google's ID-token verifier reports about a verified token. */
  datatype GooglePayload = GooglePayload(sub: string, email: string, name: Option<string>, picture: Option<string>)

  /**
   * The library calls the handlers make, as total functions fixed for the process:
   * bcrypt, jsonwebtoken with the server's secret and one-hour lifetime, and the Google
   * verifier with the registered client id as audience.
   */
  datatype Primitives = Primitives(
    hash: (string, string) -> string,                  // bcrypt.hash(plaintext, salt)
    compare: (string, string) -> bool,                 // bcrypt.compare(plaintext, hash)
    sign: string -> string,                            // jwt.sign({id}, secret, {expiresIn: "1h"})
    verify: string -> Option<string>,                  // jwt.verify(token, secret).id; None when it throws
    verifyIdToken: string -> Option<GooglePayload>)    // googleClient.verifyIdToken(...).getPayload()

  /** bcrypt accepts exactly the password that was hashed. */
  ghost predicate HashSound(p: Primitives) {
    forall pw, q, salt :: p.compare(q, p.hash(pw, salt)) <==> q == pw
  }

  /** A token verifies, inside its lifetime, to the id it was signed over. */
  ghost predicate TokenSound(p: Primitives) {
    forall id :: p.verify(p.sign(id)) == Some(id)
  }

  /** The JSON body of a response. */
  datatype Body =
    | Message(message: string)
    | Created(message: string, username: string, email: string)
    | LoggedIn(message: string, username: string, email: string, token: string)
    | TokenValid(message: string)
    | GoogleSignedIn(message: string, username: string, email: string, avatar: Option<string>, token: string)

  datatype Response = Response(status: int, body: Body)

  const AllFieldsRequired := "All fields are required"
  const AlreadyExists := "Username or email already exists"
  const UserCreated := "User created successfully"
  const EmailPasswordRequired := "Email and password are required"
  const UserNotFound := "User not found"
  const WrongPassword := "Wrong password"
  const LoginSuccessful := "Login successful"
  const NoTokenProvided := "No token provided"
  const InvalidToken := "Invalid token"
  const TokenIsValid := "Token is valid"
  const GoogleTokenRequired := "Google token is required"
  const GoogleSuccessful := "Google authentication successful"
  const GoogleFailed := "Google authentication failed"

  /** A request field passes `if (!field)`: it is there and is not the empty string. */
  predicate Present(field: Option<string>) {
    field.Some? && field.value != ""
  }

  /** The record Google sign-in creates for an email the store does not know. */
  function NewGoogleUser(p: GooglePayload, name: string, passwordHash: string, createdAt: string): UserRecord {
    UserRecord(p.sub, GoogleUsername(name, p.sub), p.email, passwordHash, createdAt, p.picture, Some(p.sub))
  }

  class AuthStore {
    const prims: Primitives
    var users: seq<UserRecord>

    /** The store as loaded from users.json at start-up. */
    constructor (prims: Primitives, initial: seq<UserRecord>)
      ensures this.prims == prims && users == initial
    {
      this.prims := prims;
      users := initial;
    }

    /** POST /signup, file storage. `now` is `Date.now()`, `salt` is `bcrypt.genSalt(10)`. */
    method Signup(username: Option<string>, email: Option<string>, password: Option<string>,
                  now: nat, salt: string, createdAt: string) returns (r: Response)
      modifies this
      ensures !(Present(username) && Present(email) && Present(password)) ==>
                r == Response(400, Message(AllFieldsRequired)) && users == old(users)
      ensures Present(username) && Present(email) && Present(password) &&
              HasConflict(old(users), email.value, username.value) ==>
                r == Response(400, Message(AlreadyExists)) && users == old(users)
      ensures Present(username) && Present(email) && Present(password) &&
              !HasConflict(old(users), email.value, username.value) ==>
                && r == Response(201, Created(UserCreated, username.value, email.value))
                && users == old(users) + [UserRecord(Decimal(now), username.value, email.value,
                                                     prims.hash(password.value, salt), createdAt, None, None)]
      ensures old(UniqueEmails(users)) ==> UniqueEmails(users)
      ensures old(UniqueUsernames(users)) ==> UniqueUsernames(users)
    {
      if !(Present(username) && Present(email) && Present(password)) {
        return Response(400, Message(AllFieldsRequired));
      }
      var u, e := username.value, email.value;
      var existing := Find(users, (x: UserRecord) => x.email == e || x.username == u);
      if existing.Some? {
        return Response(400, Message(AlreadyExists));
      }
      var newUser := UserRecord(Decimal(now), u, e, prims.hash(password.value, salt), createdAt, None, None);
      if UniqueEmails(users) {
        AppendKeepsUniqueEmails(users, newUser);
      }
      if UniqueUsernames(users) {
        AppendKeepsUniqueUsernames(users, newUser);
      }
      users := users + [newUser];
      return Response(201, Created(UserCreated, u, e));
    }

    /** POST /login, file storage. Reads the store and never changes it. */
    method Login(email: Option<string>, password: Option<string>) returns (r: Response)
      ensures !(Present(email) && Present(password)) ==> r == Response(400, Message(EmailPasswordRequired))
      ensures Present(email) && Present(password) && !HasEmail(users, email.value) ==>
                r == Response(404, Message(UserNotFound))
      ensures Present(email) && Present(password) ==>
                forall i :: FirstWithEmail(users, i, email.value) ==>
                  r == if prims.compare(password.value, users[i].password)
                       then Response(200, LoggedIn(LoginSuccessful, users[i].username, users[i].email,
                                                   prims.sign(users[i].id)))
                       else Response(400, Message(WrongPassword))
      ensures Present(email) && Present(password) && UniqueEmails(users) ==>
                forall i :: 0 <= i < |users| && users[i].email == email.value ==>
                  r == if prims.compare(password.value, users[i].password)
                       then Response(200, LoggedIn(LoginSuccessful, users[i].username, users[i].email,
                                                   prims.sign(users[i].id)))
                       else Response(400, Message(WrongPassword))
    {
      if !(Present(email) && Present(password)) {
        return Response(400, Message(EmailPasswordRequired));
      }
      var e := email.value;
      FindEmail(users, e);
      if UniqueEmails(users) {
        forall i | 0 <= i < |users| && users[i].email == e ensures FirstWithEmail(users, i, e) {
          UniqueEmailIsFirst(users, i, e);
        }
      }
      var found := Find(users, (x: UserRecord) => x.email == e);
      if found.None? {
        return Response(404, Message(UserNotFound));
      }
      var user := users[found.value];
      var valid := prims.compare(password.value, user.password);
      if !valid {
        return Response(400, Message(WrongPassword));
      }
      var token := prims.sign(user.id);
      return Response(200, LoggedIn(LoginSuccessful, user.username, user.email, token));
    }

    /** GET /validate, file storage. Reads the store and never changes it. */
    method Validate(authorization: Option<string>) returns (r: Response)
      ensures BearerToken(authorization).None? ==> r == Response(401, Message(NoTokenProvided))
      ensures BearerToken(authorization).Some? && prims.verify(BearerToken(authorization).value).None? ==>
                r == Response(401, Message(InvalidToken))
      ensures BearerToken(authorization).Some? && prims.verify(BearerToken(authorization).value).Some? ==>
                r == if HasId(users, prims.verify(BearerToken(authorization).value).value)
                     then Response(200, TokenValid(TokenIsValid))
                     else Response(401, Message(UserNotFound))
      ensures r.status == 200 || r.status == 401
    {
      var token := BearerToken(authorization);
      if token.None? {
        return Response(401, Message(NoTokenProvided));
      }
      var decoded := prims.verify(token.value);
      if decoded.None? {
        return Response(401, Message(InvalidToken));
      }
      var id := decoded.value;
      var user := Find(users, (x: UserRecord) => x.id == id);
      if user.None? {
        return Response(401, Message(UserNotFound));
      }
      assert users[user.value].id == id;
      return Response(200, TokenValid(TokenIsValid));
    }

    /**
     * POST /google, file storage. `salt` and `randomPassword` stand for the salt bcrypt draws
     * and `Math.random().toString(36)`; the password of a Google user is never usable for login.
     */
    method Google(token: Option<string>, randomPassword: string, salt: string, createdAt: string)
      returns (r: Response)
      modifies this
      ensures !Present(token) ==> r == Response(400, Message(GoogleTokenRequired)) && users == old(users)
      ensures Present(token) && prims.verifyIdToken(token.value).None? ==>
                r == Response(500, Message(GoogleFailed)) && users == old(users)
      ensures Present(token) && prims.verifyIdToken(token.value).Some? ==>
                var p := prims.verifyIdToken(token.value).value;
                && (HasEmail(old(users), p.email) ==>
                      && users == old(users)
                      && forall i :: FirstWithEmail(users, i, p.email) ==>
                           r == Response(200, GoogleSignedIn(GoogleSuccessful, users[i].username, users[i].email,
                                                             users[i].avatar, prims.sign(users[i].id))))
                && (!HasEmail(old(users), p.email) && p.name.None? ==>
                      r == Response(500, Message(GoogleFailed)) && users == old(users))
                && (!HasEmail(old(users), p.email) && p.name.Some? ==>
                      var rec := NewGoogleUser(p, p.name.value, prims.hash(randomPassword, salt), createdAt);
                      && users == old(users) + [rec]
                      && r == Response(200, GoogleSignedIn(GoogleSuccessful, rec.username, p.email,
                                                           p.picture, prims.sign(p.sub))))
      ensures Present(token) && prims.verifyIdToken(token.value).Some? && old(UniqueEmails(users)) ==>
                var p := prims.verifyIdToken(token.value).value;
                forall i :: 0 <= i < |users| && users[i].email == p.email ==>
                  r == Response(200, GoogleSignedIn(GoogleSuccessful, users[i].username, users[i].email,
                                                    users[i].avatar, prims.sign(users[i].id)))
      ensures r.status == 200 ==> HasEmail(users, prims.verifyIdToken(token.value).value.email)
      ensures old(UniqueEmails(users)) ==> UniqueEmails(users)
    {
      if !Present(token) {
        return Response(400, Message(GoogleTokenRequired));
      }
      var ticket := prims.verifyIdToken(token.value);
      if ticket.None? {
        return Response(500, Message(GoogleFailed));
      }
      var p := ticket.value;
      FindEmail(users, p.email);
      var found := Find(users, (x: UserRecord) => x.email == p.email);
      var user;
      ghost var k: int;
      if found.Some? {
        k := found.value;
        user := users[found.value];
      } else {
        if p.name.None? {
          // `name.replace` on an undefined name throws; the handler's catch answers 500
          return Response(500, Message(GoogleFailed));
        }
        user := NewGoogleUser(p, p.name.value, prims.hash(randomPassword, salt), createdAt);
        if UniqueEmails(users) {
          AppendKeepsUniqueEmails(users, user);
        }
        users := users + [user];
        k := |users| - 1;
        assert FirstWithEmail(users, k, p.email);
      }
      assert user == users[k];
      if UniqueEmails(users) {
        OnlyRecordWithEmail(users, k, p.email);
      }
      var jwtToken := prims.sign(user.id);
      return Response(200, GoogleSignedIn(GoogleSuccessful, user.username, user.email, user.avatar, jwtToken));
    }
  }
}
