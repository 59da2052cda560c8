/** The tables of the earlier FastAPI service, as its CRUD code uses them. Row ids are
    auto-incremented from 1, so the row at position `k` has id `k + 1`. A database
    session that is absent (or falsy) is a `null` reference. */
module LegacyDb {

  import opened Common

  /** A user: the bcrypt hash and salt of the password, and the current session token
      with its expiry time (seconds since the epoch). */
  datatype User = User(username: string, password: string, salt: string, session: string, sessionExp: int)

  /** A bucket: `ownerId` is the owning user's id, `parentId` the enclosing bucket's id. */
  datatype Bucket = Bucket(name: string, ownerId: nat, parentId: Option<int>, visibility: bool)

  /** A page: `bucketId` (the `owner_id` column) is the id of the bucket holding it. */
  datatype Page = Page(title: string, description: string, bucketId: int)

  /** The id of the row at position `k`. */
  function IdOf(k: nat): (id: nat)
    ensures id >= 1
  {
    k + 1
  }

  /** The position of the row with id `id`, if there is one. */
  function RowOf(count: nat, id: int): (k: Option<nat>)
    ensures k.Some? ==> k.value < count && IdOf(k.value) == id
    ensures k.None? ==> forall j: nat | j < count :: IdOf(j) != id
  {
    if 1 <= id <= count then Some(id - 1) else None
  }

  class Database {
    var users: seq<User>
    var buckets: seq<Bucket>
    var pages: seq<Page>

    constructor()
      ensures users == [] && buckets == [] && pages == []
    {
      users := [];
      buckets := [];
      pages := [];
    }
  }
}
