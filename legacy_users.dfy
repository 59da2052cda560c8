/** The user table operations of the earlier service. */
module LegacyUsers {

  import opened Common
  import opened LegacyDb

  /** The first row (lowest id) with this username. */
  function FindUser(users: seq<User>, username: string): (k: Option<nat>)
    ensures k.Some? ==> k.value < |users| && users[k.value].username == username
    ensures k.Some? ==> forall j | 0 <= j < k.value :: users[j].username != username
    ensures k.None? ==> forall j | 0 <= j < |users| :: users[j].username != username
  {
    if users == [] then None
    else if users[0].username == username then Some(0)
    else
      var k := FindUser(users[1..], username);
      if k.Some? then Some(k.value + 1) else None
  }

  /** No username appears twice. */
  predicate UniqueUsernames(users: seq<User>)
  {
    forall i, j | 0 <= i < |users| && 0 <= j < |users| && i != j :: users[i].username != users[j].username
  }

  /** `get_user_data`: the user with that username, or nothing (also without a session). */
  function GetUserData(db: Database?, username: string): (k: Option<nat>)
    reads db
    ensures db == null ==> k.None?
    ensures k.Some? ==> k.value < |db.users| && db.users[k.value].username == username
    ensures db != null && k.None? ==> forall j | 0 <= j < |db.users| :: db.users[j].username != username
  {
    if db == null then None else FindUser(db.users, username)
  }

  /** `crud.create_user`: refused without a session or when the username is taken;
      otherwise one row is added, with an empty session that expired at time 0. */
  method CreateUser(db: Database?, username: string, password: string, salt: string)
    returns (ok: bool)
    modifies db
    ensures ok <==> db != null && FindUser(old(db.users), username).None?
    ensures ok ==> db.users == old(db.users) + [User(username, password, salt, "", 0)]
    ensures db != null && !ok ==> db.users == old(db.users)
    ensures db != null ==> db.buckets == old(db.buckets) && db.pages == old(db.pages)
    ensures db != null && UniqueUsernames(old(db.users)) ==> UniqueUsernames(db.users)
  {
    if db == null {
      return false;
    }
    if FindUser(db.users, username).Some? {
      return false;
    }
    db.users := db.users + [User(username, password, salt, "", 0)];
    return true;
  }

  /** `update_user`: with a session, the changes made to the loaded row `k` are committed
      and the call succeeds; without one nothing happens. */
  method UpdateUser(db: Database?, k: nat, row: User) returns (ok: bool)
    requires db != null ==> k < |db.users|
    modifies db
    ensures ok <==> db != null
    ensures ok ==> db.users == old(db.users)[k := row]
    ensures db != null ==> db.buckets == old(db.buckets) && db.pages == old(db.pages)
  {
    if db == null {
      return false;
    }
    db.users := db.users[k := row];
    return true;
  }
}
