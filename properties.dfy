/**
 * Properties that span several requests, stated as clients of AuthStore that start from an
 * arbitrary store and reason only from the handlers' contracts.
 */
module Properties {
  import opened Options
  import opened Users
  import opened Text
  import opened Auth

  /**
   * A fresh local account: the first signup succeeds and a repeated one with the same email
   * is refused; login accepts exactly the signup password; the issued token validates.
   */
  method LocalAccountLifecycle(prims: Primitives, initial: seq<UserRecord>,
                               username: string, email: string, password: string,
                               otherName: string, otherPassword: string,
                               now: nat, salt: string, createdAt: string)
    returns (created: Response, duplicate: Response, rejected: Response, accepted: Response, validated: Response)
    requires HashSound(prims) && TokenSound(prims)
    requires username != "" && email != "" && password != "" && otherName != ""
    requires otherPassword != "" && otherPassword != password
    requires !HasConflict(initial, email, username)
    ensures created == Response(201, Created(UserCreated, username, email))
    ensures duplicate == Response(400, Message(AlreadyExists))
    ensures rejected == Response(400, Message(WrongPassword))
    ensures accepted == Response(200, LoggedIn(LoginSuccessful, username, email, prims.sign(Decimal(now))))
    ensures validated == Response(200, TokenValid(TokenIsValid))
  {
    var store := new AuthStore(prims, initial);
    created := store.Signup(Some(username), Some(email), Some(password), now, salt, createdAt);
    var i := |initial|;
    assert store.users[i].email == email;
    assert FirstWithEmail(store.users, i, email);
    duplicate := store.Signup(Some(otherName), Some(email), Some(password), now, salt, createdAt);
    rejected := store.Login(Some(email), Some(otherPassword));
    accepted := store.Login(Some(email), Some(password));
    BearerTokenRoundTrip(accepted.body.token);
    assert store.users[i].id == Decimal(now);
    validated := store.Validate(Some(BearerPrefix + accepted.body.token));
  }

  /**
   * Google sign-in twice with the same token, from any store: the second call adds no record
   * and gives the same answer as the first, whatever randomness the two calls draw. Here the
   * two tokens are equal as strings only because `sign` and the Google verifier are modelled
   * without a clock; in the program they are tokens over the same id.
   */
  method GoogleSignInIsIdempotent(prims: Primitives, initial: seq<UserRecord>, token: Option<string>,
                                  random1: string, salt1: string, createdAt1: string,
                                  random2: string, salt2: string, createdAt2: string)
    returns (first: Response, second: Response, sizeAfterFirst: nat, sizeAfterSecond: nat)
    ensures sizeAfterFirst <= |initial| + 1
    ensures sizeAfterSecond == sizeAfterFirst
    ensures second == first
  {
    var store := new AuthStore(prims, initial);
    first := store.Google(token, random1, salt1, createdAt1);
    sizeAfterFirst := |store.users|;
    if Present(token) && prims.verifyIdToken(token.value).Some? {
      var p := prims.verifyIdToken(token.value).value;
      if HasEmail(initial, p.email) {
        var i := FirstEmail(initial, p.email);
      } else if p.name.Some? {
        assert FirstWithEmail(store.users, |initial|, p.email);
      }
    }
    second := store.Google(token, random2, salt2, createdAt2);
    sizeAfterSecond := |store.users|;
  }

  /**
   * Google sign-in does not keep usernames unique: a local "al1234" and a Google user named
   * "a l" whose subject id ends in 1234 end up sharing a username.
   */
  method GoogleUsernameClash(prims: Primitives, now: nat, salt: string, createdAt: string)
    returns (created: Response, signedIn: Response, users: seq<UserRecord>)
    requires prims.verifyIdToken("google-token") == Some(GooglePayload("201234", "al@y.com", Some("a l"), None))
    ensures created.status == 201 && signedIn.status == 200
    ensures UniqueEmails(users) && !UniqueUsernames(users)
  {
    var store := new AuthStore(prims, []);
    created := store.Signup(Some("al1234"), Some("al@x.com"), Some("secret"), now, salt, createdAt);
    assert !HasEmail(store.users, "al@y.com");
    GoogleUsernameCollides();
    signedIn := store.Google(Some("google-token"), "0.5", salt, createdAt);
    users := store.users;
    assert users[0].username == users[1].username;
  }
}
