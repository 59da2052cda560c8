/** The bucket table operations of the earlier service. */
module LegacyBuckets {

  import opened Common
  import opened LegacyDb
  import LegacyUsers

  /** The ids of the rows at positions `ks`. */
  function Shift(ks: seq<nat>): (ids: seq<nat>)
    ensures |ids| == |ks| && forall i | 0 <= i < |ks| :: ids[i] == IdOf(ks[i])
  {
    seq(|ks|, i requires 0 <= i < |ks| => IdOf(ks[i]))
  }

  /** Ids and positions hold the same rows, in the same order. */
  lemma ShiftedSelection(buckets: seq<Bucket>, keep: Bucket -> bool, ks: seq<nat>)
    requires forall k: nat :: k in ks <==> k < |buckets| && keep(buckets[k])
    requires forall i, j | 0 <= i < j < |ks| :: ks[i] < ks[j]
    ensures forall id: nat :: id in Shift(ks) <==> 1 <= id <= |buckets| && keep(buckets[id - 1])
    ensures forall i, j | 0 <= i < j < |Shift(ks)| :: Shift(ks)[i] < Shift(ks)[j]
  {
    var ids := Shift(ks);
    forall id: nat
      ensures id in ids <==> 1 <= id <= |buckets| && keep(buckets[id - 1])
    {
      if id in ids {
        var i :| 0 <= i < |ids| && ids[i] == id;
        assert ks[i] in ks;
      }
      if 1 <= id <= |buckets| && keep(buckets[id - 1]) {
        assert id - 1 in ks;
        var i :| 0 <= i < |ks| && ks[i] == id - 1;
        assert ids[i] == id;
      }
    }
  }

  /** The ids of `buckets` (in id order) whose row satisfies `keep`. */
  function Ids(buckets: seq<Bucket>, keep: Bucket -> bool): (ids: seq<nat>)
    ensures forall id: nat :: id in ids <==> 1 <= id <= |buckets| && keep(buckets[id - 1])
    ensures forall i, j | 0 <= i < j < |ids| :: ids[i] < ids[j]
  {
    var ks := Select(buckets, keep);
    ShiftedSelection(buckets, keep, ks);
    Shift(ks)
  }

  /** `create_bucket`: refused without a session or for an unknown user; otherwise a
      bucket named `name` is added, owned by that user, under `parent` when one is given
      (an id of 0 counts as none). The visibility column takes its default. */
  method CreateBucket(db: Database?, username: string, name: string, parent: Option<int>,
                      defaultVisibility: bool)
    returns (ok: bool)
    modifies db
    ensures ok <==> db != null && LegacyUsers.FindUser(old(db.users), username).Some?
    ensures ok ==>
              var k := LegacyUsers.FindUser(old(db.users), username).value;
              db.buckets == old(db.buckets) + [Bucket(name, IdOf(k),
                                                       if parent.Some? && parent.value != 0 then parent else None,
                                                       defaultVisibility)]
    ensures db != null && !ok ==> db.buckets == old(db.buckets)
    ensures db != null ==> db.users == old(db.users) && db.pages == old(db.pages)
  {
    if db == null {
      return false;
    }
    var user := LegacyUsers.FindUser(db.users, username);
    if user.None? {
      return false;
    }
    var parentId := if parent.Some? && parent.value != 0 then parent else None;
    db.buckets := db.buckets + [Bucket(name, IdOf(user.value), parentId, defaultVisibility)];
    return true;
  }

  /** `get_buckets`: the ids of the user's buckets; nothing for an unknown user or
      without a session. */
  function GetBuckets(db: Database?, username: string): (r: Option<seq<nat>>)
    reads db
    ensures r.Some? <==> LegacyUsers.GetUserData(db, username).Some?
    ensures r.Some? ==> forall id: nat :: id in r.value <==>
              1 <= id <= |db.buckets|
              && db.buckets[id - 1].ownerId == IdOf(LegacyUsers.GetUserData(db, username).value)
  {
    match LegacyUsers.GetUserData(db, username)
    case None => None
    case Some(k) => Some(Ids(db.buckets, (b: Bucket) => b.ownerId == IdOf(k)))
  }

  /** `get_prim_buckets`: the ids of the user's top-level buckets. */
  function GetPrimBuckets(db: Database?, username: string): (r: Option<seq<nat>>)
    reads db
    ensures r.Some? <==> LegacyUsers.GetUserData(db, username).Some?
    ensures r.Some? ==> forall id: nat :: id in r.value <==>
              1 <= id <= |db.buckets|
              && db.buckets[id - 1].ownerId == IdOf(LegacyUsers.GetUserData(db, username).value)
              && db.buckets[id - 1].parentId.None?
  {
    match LegacyUsers.GetUserData(db, username)
    case None => None
    case Some(k) => Some(Ids(db.buckets, (b: Bucket) => b.ownerId == IdOf(k) && b.parentId.None?))
  }

  /** The top-level buckets are some of the user's buckets. */
  lemma PrimBucketsAreBuckets(db: Database?, username: string, id: nat)
    requires GetPrimBuckets(db, username).Some? && id in GetPrimBuckets(db, username).value
    ensures GetBuckets(db, username).Some? && id in GetBuckets(db, username).value
  {
  }

  /** `get_bucket`: the position of the bucket with that id, if any. */
  function GetBucket(db: Database?, id: int): (k: Option<nat>)
    reads db
    ensures db == null ==> k.None?
    ensures k.Some? ==> k.value < |db.buckets| && IdOf(k.value) == id
    ensures db != null && k.None? ==> forall j: nat | j < |db.buckets| :: IdOf(j) != id
  {
    if db == null then None else RowOf(|db.buckets|, id)
  }

  /** `get_bucket_buckets`: the ids of the buckets directly inside bucket `id`; none
      without a session. */
  function GetBucketBuckets(db: Database?, id: int): (ids: seq<nat>)
    reads db
    ensures db == null ==> ids == []
    ensures db != null ==> forall c: nat :: c in ids <==> 1 <= c <= |db.buckets| && db.buckets[c - 1].parentId == Some(id)
  {
    if db == null then [] else Ids(db.buckets, (b: Bucket) => b.parentId == Some(id))
  }

  /** The positions of the pages of bucket `id`, in id order. */
  function PagesOf(pages: seq<Page>, id: int): (ks: seq<nat>)
    ensures forall k: nat :: k in ks <==> k < |pages| && pages[k].bucketId == id
    ensures forall i | 0 <= i < |ks| :: ks[i] < |pages| && pages[ks[i]].bucketId == id
    ensures forall i, j | 0 <= i < j < |ks| :: ks[i] < ks[j]
  {
    var ks := Select(pages, (p: Page) => p.bucketId == id);
    assert forall i | 0 <= i < |ks| :: ks[i] in ks;
    ks
  }

  /** One entry of a bucket's page list. */
  datatype PageSummary = PageSummary(name: string, id: nat)

  /** `get_bucket_pages`: a `{name: title, id}` entry per page of bucket `id`, in id order;
      an empty list without a session. */
  method GetBucketPages(db: Database?, id: int) returns (summaries: seq<PageSummary>)
    ensures db == null ==> summaries == []
    ensures db != null ==>
              var ks := PagesOf(db.pages, id);
              |summaries| == |ks|
              && forall i | 0 <= i < |ks| :: summaries[i] == PageSummary(db.pages[ks[i]].title, IdOf(ks[i]))
  {
    if db == null {
      return [];
    }
    var ks := PagesOf(db.pages, id);
    assert forall i | 0 <= i < |ks| :: ks[i] in ks;
    summaries := [];
    var i := 0;
    while i < |ks|
      invariant 0 <= i <= |ks|
      invariant |summaries| == i
      invariant forall j | 0 <= j < i :: summaries[j] == PageSummary(db.pages[ks[j]].title, IdOf(ks[j]))
    {
      summaries := summaries + [PageSummary(db.pages[ks[i]].title, IdOf(ks[i]))];
      i := i + 1;
    }
  }
}
