/** The computed fields of a bucket's representation: whether the requester may edit it,
    and the nested summaries of its child buckets and of its pages. */
module BucketSerializer {

  import opened Common
  import opened Records
  import Access
  import Permissions
  import Views

  /** `get_can_edit`: the requester is the bucket's owner; an anonymous visitor never is. */
  predicate CanEdit(actor: Option<UserId>, b: Bucket)
  {
    actor == Some(b.owner)
  }

  /** The flag shown to the client agrees with what the write endpoints enforce. */
  lemma CanEditMatchesWriteRule(m: Permissions.Method, actor: Option<UserId>, b: Bucket)
    requires !Permissions.Safe(m)
    ensures CanEdit(actor, b) <==> Permissions.HasObjectPermission(m, actor, Permissions.OfBucket(b))
  {
  }

  /** `n` copies of the id `k`. */
  function Repeat(k: nat, n: nat): (s: seq<nat>)
    ensures |s| == n && forall i | 0 <= i < n :: s[i] == k
    ensures forall j: nat :: multiset(s)[j] == if j == k then n else 0
  {
    if n == 0 then [] else [k] + Repeat(k, n - 1)
  }

  /** The rows of a query, in id order, each repeated as often as the join produces it. */
  function Expand<T>(rows: seq<T>, copies: T -> nat): (ids: seq<nat>)
    ensures forall k: nat :: multiset(ids)[k] == if k < |rows| then copies(rows[k]) else 0
    ensures forall i | 0 <= i < |ids| :: ids[i] < |rows|
    ensures forall i, j | 0 <= i < j < |ids| :: ids[i] <= ids[j]
  {
    if rows == [] then []
    else
      var ids := Expand(rows[..|rows| - 1], copies);
      var tail := Repeat(|rows| - 1, copies(rows[|rows| - 1]));
      ExpandLast(rows, copies, ids, tail);
      ids + tail
  }

  /** Appending the copies of the last row to the expansion of the others expands all
      rows. */
  lemma ExpandLast<T>(rows: seq<T>, copies: T -> nat, ids: seq<nat>, tail: seq<nat>)
    requires rows != []
    requires forall k: nat :: multiset(ids)[k] == if k < |rows| - 1 then copies(rows[k]) else 0
    requires forall i | 0 <= i < |ids| :: ids[i] < |rows| - 1
    requires forall i, j | 0 <= i < j < |ids| :: ids[i] <= ids[j]
    requires tail == Repeat(|rows| - 1, copies(rows[|rows| - 1]))
    ensures forall k: nat :: multiset(ids + tail)[k] == if k < |rows| then copies(rows[k]) else 0
    ensures forall i | 0 <= i < |ids + tail| :: (ids + tail)[i] < |rows|
    ensures forall i, j | 0 <= i < j < |ids + tail| :: (ids + tail)[i] <= (ids + tail)[j]
  {
    assert multiset(ids + tail) == multiset(ids) + multiset(tail);
  }

  /** How often a row comes back from a filter `direct OR readers = u` evaluated over the
      outer join of the row with its readers: one joined row per reader (a single one with
      no reader when the set is empty), and every joined row that passes is returned. */
  function JoinCopies(direct: bool, u: UserId, readers: set<UserId>): (n: nat)
    ensures n > 0 <==> direct || u in readers
    ensures direct && readers != {} ==> n == |readers|
    ensures !direct ==> n <= 1
  {
    if readers == {} then (if direct then 1 else 0)
    else if direct then |readers|
    else if u in readers then 1
    else 0
  }

  /** How often the child-bucket query returns `b`: for a signed-in user the filter is
      owner, reader or visible, over the readers join; for an anonymous visitor it is
      visibility alone, with no join. */
  function ChildCopies(actor: Option<UserId>, b: Bucket): nat
  {
    match actor
    case None => if b.visibility then 1 else 0
    case Some(u) => JoinCopies(b.owner == u || b.visibility, u, b.readers)
  }

  /** `get_children_buckets` as written: the child buckets of `parent` the requester may
      read, in id order, each as often as the readers join returns it. */
  function JoinedChildren(actor: Option<UserId>, rows: seq<Bucket>, parent: nat): (ids: seq<nat>)
    ensures forall k: nat :: multiset(ids)[k] ==
              if k < |rows| && rows[k].parent == Some(parent) then ChildCopies(actor, rows[k]) else 0
  {
    Expand(rows, (b: Bucket) => if b.parent == Some(parent) then ChildCopies(actor, b) else 0)
  }

  /** Whether the requester may see a bucket in a nested summary: the read rule for a
      signed-in user, visibility alone for an anonymous visitor. */
  predicate MaySeeBucket(actor: Option<UserId>, b: Bucket)
  {
    match actor
    case None => b.visibility
    case Some(u) => Access.CanReadBucket(u, b)
  }

  /** The child-bucket summary as intended: each readable child of `parent` once, in id
      order. */
  function ChildBuckets(actor: Option<UserId>, rows: seq<Bucket>, parent: nat): (ids: seq<nat>)
    ensures forall k: nat :: k in ids <==> k < |rows| && rows[k].parent == Some(parent) && MaySeeBucket(actor, rows[k])
    ensures Views.Ascending(ids)
  {
    Select(rows, (b: Bucket) => b.parent == Some(parent) && MaySeeBucket(actor, b))
  }

  /** The query as written returns exactly the intended children; it differs only in how
      often: a visible or owned child comes back once per reader it has. */
  lemma JoinedChildrenSameRows(actor: Option<UserId>, rows: seq<Bucket>, parent: nat)
    ensures forall k: nat :: k in JoinedChildren(actor, rows, parent) <==> k in ChildBuckets(actor, rows, parent)
    ensures actor.Some? ==> forall k: nat | k < |rows| && rows[k].parent == Some(parent)
              && (rows[k].owner == actor.value || rows[k].visibility) && rows[k].readers != {} ::
              multiset(JoinedChildren(actor, rows, parent))[k] == |rows[k].readers|
  {
    var joined: seq<nat> := JoinedChildren(actor, rows, parent);
    forall k: nat ensures k in joined <==> k in ChildBuckets(actor, rows, parent) {
      assert k in joined <==> multiset(joined)[k] > 0;
    }
  }

  /** How often the page query returns `p` of a bucket with visibility `visible`: for a
      signed-in user the filter is owner, reader, or public in a visible bucket, over the
      readers join; for an anonymous visitor the last clause alone, with no join. */
  function PageCopies(actor: Option<UserId>, p: Page, visible: bool): nat
  {
    match actor
    case None => if p.public && visible then 1 else 0
    case Some(u) => JoinCopies(p.owner == u || (p.public && visible), u, p.readers)
  }

  /** `get_pages` as written: the pages of bucket `b` the requester may see, each as often
      as the readers join returns it. */
  function JoinedPages(actor: Option<UserId>, pages: seq<Page>, buckets: seq<Bucket>, b: nat): (ids: seq<nat>)
    requires b < |buckets|
    ensures forall k: nat :: multiset(ids)[k] ==
              if k < |pages| && pages[k].bucket == b then PageCopies(actor, pages[k], buckets[b].visibility) else 0
  {
    Expand(pages, (p: Page) => if p.bucket == b then PageCopies(actor, p, buckets[b].visibility) else 0)
  }

  /** The page summary as intended: each page of bucket `b` the requester may see, once. */
  function BucketPages(actor: Option<UserId>, pages: seq<Page>, buckets: seq<Bucket>, b: nat): (ids: seq<nat>)
    requires b < |buckets|
    ensures forall k: nat :: k in ids <==> k < |pages| && pages[k].bucket == b && Access.CanSeePage(actor, pages[k], buckets[b])
    ensures Views.Ascending(ids)
  {
    Select(pages, (p: Page) => p.bucket == b && Access.CanSeePage(actor, p, buckets[b]))
  }

  /** The page query as written returns exactly the intended pages, a public page of a
      visible bucket once per reader it has. */
  lemma JoinedPagesSameRows(actor: Option<UserId>, pages: seq<Page>, buckets: seq<Bucket>, b: nat)
    requires b < |buckets|
    ensures forall k: nat :: k in JoinedPages(actor, pages, buckets, b) <==> k in BucketPages(actor, pages, buckets, b)
    ensures actor.Some? ==> forall k: nat | k < |pages| && pages[k].bucket == b
              && pages[k].public && buckets[b].visibility && pages[k].readers != {} ::
              multiset(JoinedPages(actor, pages, buckets, b))[k] == |pages[k].readers|
  {
    var joined: seq<nat> := JoinedPages(actor, pages, buckets, b);
    forall k: nat ensures k in joined <==> k in BucketPages(actor, pages, buckets, b) {
      assert k in joined <==> multiset(joined)[k] > 0;
    }
  }

  /** A page in a bucket's summary is also in the signed-in user's page listing. */
  lemma SummaryWithinListing(u: UserId, pages: seq<Page>, buckets: seq<Bucket>, b: nat, k: nat)
    requires Views.PagesResolve(pages, buckets) && b < |buckets|
    requires k in BucketPages(Some(u), pages, buckets, b)
    ensures k in Views.PageListing(Some(u), pages, buckets)
  {
    Access.SummaryRuleIsNarrower(u, pages[k], buckets[b]);
  }

  /** A visible child bucket with two readers is listed twice to a third user. */
  lemma ChildListedOncePerReader()
    ensures var rows := [Bucket("top", "Top", 1, None, {}, true), Bucket("kid", "Kid", 1, Some(0), {2, 3}, true)];
            multiset(JoinedChildren(Some(4), rows, 0))[1] == 2
            && ChildBuckets(Some(4), rows, 0) == [1]
  {
    var rows := [Bucket("top", "Top", 1, None, {}, true), Bucket("kid", "Kid", 1, Some(0), {2, 3}, true)];
    assert |rows[1].readers| == 2 by {
      assert rows[1].readers == {2} + {3};
    }
    var ids := ChildBuckets(Some(4), rows, 0);
    assert 1 in ids && 0 !in ids;
    assert forall k: nat :: k in ids ==> k == 1;
    Views.AscendingHasNoRepeats(ids);
    assert Views.Members(ids) == {1};
    assert ids[0] in ids;
  }
}
