/** Sessions, logins and bucket access checks of the earlier service. Password hashing
    and verification (bcrypt), the random session token and the clock are parameters;
    times are whole seconds. */
module UserFunctions {

  import opened Common
  import opened LegacyDb
  import LegacyUsers
  import LegacyBuckets

  /** Thirty days, in seconds. */
  const SessionLifetime: int := 2592000

  /** `check_session`: the user exists, holds exactly this token, and the token has not
      expired: its expiry lies strictly after `now`. */
  function CheckSession(db: Database?, username: string, token: string, now: int): (ok: bool)
    reads db
    ensures ok ==> db != null && LegacyUsers.FindUser(db.users, username).Some?
    ensures ok <==> match LegacyUsers.GetUserData(db, username)
                    case None => false
                    case Some(k) => db.users[k].session == token && db.users[k].sessionExp > now
  {
    match LegacyUsers.GetUserData(db, username)
    case None => false
    case Some(k) => token == db.users[k].session && db.users[k].sessionExp > now
  }

  /** `functions.create_user`: the password is hashed (hash and salt come from `hash`)
      and the user is created. */
  method CreateUser(db: Database?, username: string, password: string,
                    hash: string -> (string, string))
    returns (ok: bool)
    modifies db
    ensures ok <==> db != null && LegacyUsers.FindUser(old(db.users), username).None?
    ensures ok ==> db.users == old(db.users) + [User(username, hash(password).0, hash(password).1, "", 0)]
    ensures db != null && !ok ==> db.users == old(db.users)
    ensures db != null ==> db.buckets == old(db.buckets) && db.pages == old(db.pages)
  {
    var h := hash(password);
    ok := LegacyUsers.CreateUser(db, username, h.0, h.1);
  }

  /** A freshly created user has no working session: every token is refused at any time
      from the epoch on. */
  lemma NewUserHasNoSession(users: seq<User>, username: string, password: string, salt: string,
                            token: string, now: int)
    requires LegacyUsers.FindUser(users, username).None? && now >= 0
    ensures var k := LegacyUsers.FindUser(users + [User(username, password, salt, "", 0)], username);
            k == Some(|users|)
            && !((users + [User(username, password, salt, "", 0)])[k.value].sessionExp > now)
  {
    FindUserAppend(users, User(username, password, salt, "", 0));
  }

  lemma {:induction false} FindUserAppend(users: seq<User>, u: User)
    requires LegacyUsers.FindUser(users, u.username).None?
    ensures LegacyUsers.FindUser(users + [u], u.username) == Some(|users|)
  {
    if users != [] {
      assert (users + [u])[1..] == users[1..] + [u];
      FindUserAppend(users[1..], u);
    }
  }

  /** `create_session_token`: the token (from `generate_hash`) and its expiry, thirty days
      from `now`, are stored on the user when the user exists; both are returned in any
      case. */
  method CreateSessionToken(db: Database?, username: string, token: string, now: int)
    returns (t: string, exp: int)
    modifies db
    ensures t == token && exp == now + SessionLifetime
    ensures db != null ==>
              match LegacyUsers.FindUser(old(db.users), username)
              case None => db.users == old(db.users)
              case Some(k) => db.users == old(db.users)[k := old(db.users)[k].(session := token, sessionExp := exp)]
    ensures db != null ==> db.buckets == old(db.buckets) && db.pages == old(db.pages)
  {
    t, exp := token, now + SessionLifetime;
    var user := LegacyUsers.GetUserData(db, username);
    if user.Some? {
      var k := user.value;
      var _ := LegacyUsers.UpdateUser(db, k, db.users[k].(session := token, sessionExp := exp));
    }
  }

  /** `check_password`: an unknown user or a wrong password is refused with no session;
      a right password issues a new session. `verify(hash, salt, password)` is bcrypt's
      check. */
  method CheckPassword(db: Database?, username: string, password: string,
                       verify: (string, string, string) -> bool, token: string, now: int)
    returns (ok: bool, session: Option<(string, int)>)
    modifies db
    ensures ok <==> db != null && LegacyUsers.FindUser(old(db.users), username).Some?
                    && var u := old(db.users)[LegacyUsers.FindUser(old(db.users), username).value];
                       verify(u.password, u.salt, password)
    ensures ok ==> session == Some((token, now + SessionLifetime))
    ensures !ok ==> session.None? && (db != null ==> db.users == old(db.users))
    ensures ok ==> forall later: int | later < now + SessionLifetime :: CheckSession(db, username, token, later)
    ensures db != null ==> db.buckets == old(db.buckets) && db.pages == old(db.pages)
  {
    var user := LegacyUsers.GetUserData(db, username);
    if user.Some? {
      var u := db.users[user.value];
      if verify(u.password, u.salt, password) {
        var t, exp := CreateSessionToken(db, username, token, now);
        LoginKeepsFirstMatch(old(db.users), user.value, token, exp);
        return true, Some((t, exp));
      }
    }
    return false, None;
  }

  /** Writing a session onto the first row with a username keeps it the first such row. */
  lemma LoginKeepsFirstMatch(users: seq<User>, k: nat, token: string, exp: int)
    requires k < |users| && LegacyUsers.FindUser(users, users[k].username) == Some(k)
    ensures LegacyUsers.FindUser(users[k := users[k].(session := token, sessionExp := exp)], users[k].username) == Some(k)
  {
    var after := users[k := users[k].(session := token, sessionExp := exp)];
    FindUserDependsOnNames(users, after, users[k].username);
  }

  lemma {:induction false} FindUserDependsOnNames(users: seq<User>, users': seq<User>, username: string)
    requires |users| == |users'| && forall j | 0 <= j < |users| :: users[j].username == users'[j].username
    ensures LegacyUsers.FindUser(users, username) == LegacyUsers.FindUser(users', username)
  {
    if users != [] {
      FindUserDependsOnNames(users[1..], users'[1..], username);
    }
  }

  /** `get_id`: the id of a user who must exist (the lookup result is dereferenced
      unchecked). */
  function GetId(db: Database, username: string): (id: nat)
    reads db
    requires LegacyUsers.FindUser(db.users, username).Some?
    ensures 1 <= id <= |db.users| && db.users[id - 1].username == username
  {
    IdOf(LegacyUsers.FindUser(db.users, username).value)
  }

  /** `verify_bucket_ownership`: the bucket exists and the user owns it. */
  function VerifyBucketOwnership(db: Database, username: string, bucketId: int): (ok: bool)
    reads db
    requires LegacyUsers.FindUser(db.users, username).Some?
    ensures ok <==> 1 <= bucketId <= |db.buckets| && db.buckets[bucketId - 1].ownerId == GetId(db, username)
  {
    var owner := GetId(db, username);
    match LegacyBuckets.GetBucket(db, bucketId)
    case None => false
    case Some(k) => owner == db.buckets[k].ownerId
  }

  /** `verify_bucket_view_access`: the bucket exists and is visible, or the user owns
      it. */
  function VerifyBucketViewAccess(db: Database, username: string, bucketId: int): (ok: bool)
    reads db
    requires LegacyUsers.FindUser(db.users, username).Some?
    ensures ok <==> 1 <= bucketId <= |db.buckets|
                    && (db.buckets[bucketId - 1].visibility || db.buckets[bucketId - 1].ownerId == GetId(db, username))
  {
    var owner := GetId(db, username);
    match LegacyBuckets.GetBucket(db, bucketId)
    case None => false
    case Some(k) => db.buckets[k].visibility || owner == db.buckets[k].ownerId
  }

  /** An owner can always view: ownership is the stronger check. */
  lemma OwnershipImpliesView(db: Database, username: string, bucketId: int)
    requires LegacyUsers.FindUser(db.users, username).Some?
    ensures VerifyBucketOwnership(db, username, bucketId) ==> VerifyBucketViewAccess(db, username, bucketId)
  {
  }
}
