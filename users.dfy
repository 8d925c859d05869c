/**
 * The records of the file-backed user store (the module-level `users` array of
 * backend/routes/auth.js) and the `users.find(...)` lookups the route handlers run over it.
 */
module Users {
  import opened Options

  /** One element of the `users` array as it is written to users.json. */
  datatype UserRecord = UserRecord(
    id: string,
    username: string,
    email: string,
    password: string,          // a bcrypt hash, never the plaintext
    createdAt: string,
    avatar: Option<string>,    // only set on records created by Google sign-in
    googleId: Option<string>)  // only set on records created by Google sign-in

  /**
   * `Array.prototype.find` on the store: the index of the FIRST record that satisfies `p`,
   * or None when no record does.
   */
  function Find(users: seq<UserRecord>, p: UserRecord -> bool): (r: Option<nat>)
    ensures r.Some? ==> r.value < |users| && p(users[r.value])
    ensures r.Some? ==> forall j :: 0 <= j < r.value ==> !p(users[j])
    ensures r.None? <==> forall j :: 0 <= j < |users| ==> !p(users[j])
  {
    if users == [] then None
    else if p(users[0]) then Some(0)
    else match Find(users[1..], p)
      case None => None
      case Some(i) => Some(i + 1)
  }

  predicate HasEmail(users: seq<UserRecord>, email: string) {
    exists i :: 0 <= i < |users| && users[i].email == email
  }

  predicate HasId(users: seq<UserRecord>, id: string) {
    exists i :: 0 <= i < |users| && users[i].id == id
  }

  /** What signup rejects: some record already has this email or this username. */
  predicate HasConflict(users: seq<UserRecord>, email: string, username: string) {
    exists i :: 0 <= i < |users| && (users[i].email == email || users[i].username == username)
  }

  /** Record `i` is the one `users.find(u => u.email === email)` returns. */
  predicate FirstWithEmail(users: seq<UserRecord>, i: int, email: string) {
    0 <= i < |users| && users[i].email == email &&
    forall j :: 0 <= j < i ==> users[j].email != email
  }

  /** No two records share an email: signup and Google sign-in both keep this. */
  predicate UniqueEmails(users: seq<UserRecord>) {
    forall i, j :: 0 <= i < j < |users| ==> users[i].email != users[j].email
  }

  /** No two records share a username: signup keeps this, Google sign-in does not. */
  predicate UniqueUsernames(users: seq<UserRecord>) {
    forall i, j :: 0 <= i < j < |users| ==> users[i].username != users[j].username
  }

  /** Find with the email predicate returns exactly the first record with that email. */
  lemma FindEmail(users: seq<UserRecord>, email: string)
    ensures Find(users, (u: UserRecord) => u.email == email).None? <==> !HasEmail(users, email)
    ensures forall i :: FirstWithEmail(users, i, email) ==> Find(users, (u: UserRecord) => u.email == email) == Some(i)
  {
    var r := Find(users, (u: UserRecord) => u.email == email);
    if r.None? {
      forall i | 0 <= i < |users| ensures users[i].email != email {
        assert !((u: UserRecord) => u.email == email)(users[i]);
      }
    }
  }

  /** Whenever some record has the email, there is a first one. */
  lemma FirstEmail(users: seq<UserRecord>, email: string) returns (i: int)
    requires HasEmail(users, email)
    ensures FirstWithEmail(users, i, email)
  {
    FindEmail(users, email);
    i := Find(users, (u: UserRecord) => u.email == email).value;
  }

  /** Under the store invariant, any record with the email is the one find returns. */
  lemma UniqueEmailIsFirst(users: seq<UserRecord>, i: int, email: string)
    requires UniqueEmails(users)
    requires 0 <= i < |users| && users[i].email == email
    ensures FirstWithEmail(users, i, email)
  {
  }

  /** Under the store invariant, the record find returns is the only one with its email. */
  lemma OnlyRecordWithEmail(users: seq<UserRecord>, k: int, email: string)
    requires UniqueEmails(users)
    requires FirstWithEmail(users, k, email)
    ensures forall i :: 0 <= i < |users| && users[i].email == email ==> i == k
  {
  }

  /** Appending a record whose email is new keeps emails unique. */
  lemma AppendKeepsUniqueEmails(users: seq<UserRecord>, rec: UserRecord)
    requires UniqueEmails(users)
    requires !HasEmail(users, rec.email)
    ensures UniqueEmails(users + [rec])
  {
  }

  /** Appending a record whose email and username are both new keeps both unique. */
  lemma AppendKeepsUniqueUsernames(users: seq<UserRecord>, rec: UserRecord)
    requires UniqueUsernames(users)
    requires !HasConflict(users, rec.email, rec.username)
    ensures UniqueUsernames(users + [rec])
  {
  }
}
