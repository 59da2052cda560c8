/** The REST viewsets: which permission classes guard each action, which rows each
    listing returns, how a listing is cut into pages, and how a created record gets its
    owner. */
module Views {

  import opened Common
  import opened Records
  import opened Access
  import opened Permissions
  import Buckets
  import Pages
  import BucketTree

  datatype Action = Create | List | Retrieve | Update | PartialUpdate | Destroy | Other

  /** The permission classes the viewsets choose from. */
  datatype Gate = AllowAny | IsAuthenticated | IsOwnerOrReadOnly

  predicate Writes(a: Action)
  {
    a == Update || a == PartialUpdate || a == Destroy
  }

  /** `get_permissions` of the bucket, page, comment and asset viewsets: signing in is
      always required, and the write actions add the owner rule. */
  function ContentGates(a: Action): (gates: set<Gate>)
    ensures IsAuthenticated in gates && AllowAny !in gates
    ensures IsOwnerOrReadOnly in gates <==> Writes(a)
  {
    if Writes(a) then {IsAuthenticated, IsOwnerOrReadOnly} else {IsAuthenticated}
  }

  /** `get_permissions` of the user viewset: anybody may register and list; reading or
      changing one user needs signing in plus the owner rule; anything else needs signing
      in. */
  function UserGates(a: Action): (gates: set<Gate>)
    ensures a == Create || a == List ==> gates == {AllowAny}
    ensures IsOwnerOrReadOnly in gates <==> a == Retrieve || Writes(a)
  {
    if a == Create || a == List then {AllowAny}
    else if a == Retrieve || Writes(a) then {IsAuthenticated, IsOwnerOrReadOnly}
    else {IsAuthenticated}
  }

  /** The framework runs every gate's request check, and, for an action on one object,
      every gate's object check. Only `IsAuthenticated` refuses at request level, only
      `IsOwnerOrReadOnly` at object level. */
  predicate Permitted(gates: set<Gate>, m: Method, actor: Option<UserId>, obj: Option<Guarded>)
  {
    && (IsAuthenticated in gates ==> actor.Some?)
    && (IsOwnerOrReadOnly in gates && obj.Some? ==> HasObjectPermission(m, actor, obj.value))
  }

  /** Creating content needs only a signed-in user; changing or deleting it needs the
      signed-in owner as the object rule sees it. */
  lemma ContentActionRules(a: Action, m: Method, actor: Option<UserId>, obj: Guarded)
    ensures Permitted(ContentGates(Create), m, actor, None) <==> actor.Some?
    ensures Writes(a) && !Safe(m) ==>
              (Permitted(ContentGates(a), m, actor, Some(obj)) <==> actor.Some? && HasObjectPermission(m, actor, obj))
    ensures !Writes(a) ==> (Permitted(ContentGates(a), m, actor, Some(obj)) <==> actor.Some?)
  {
  }

  /** Anybody, signed in or not, may register or list users; only the user may change
      their own record. */
  lemma UserActionRules(m: Method, actor: Option<UserId>, u: UserId)
    requires !Safe(m)
    ensures Permitted(UserGates(Create), m, actor, None) && Permitted(UserGates(List), m, actor, None)
    ensures Permitted(UserGates(Update), m, actor, Some(OfUser(u))) <==> actor == Some(u)
  {
  }

  /** Comment and asset rows can only be read through a page: all page references resolve. */
  predicate PagesResolve(pages: seq<Page>, buckets: seq<Bucket>)
  {
    forall k | 0 <= k < |pages| :: pages[k].bucket < |buckets|
  }

  predicate Ascending(ids: seq<nat>)
  {
    forall i, j | 0 <= i < j < |ids| :: ids[i] < ids[j]
  }

  /** The bucket listing: for a signed-in user, every bucket they may read, each once;
      nothing for an anonymous visitor. */
  function BucketListing(actor: Option<UserId>, buckets: seq<Bucket>): (ids: seq<nat>)
    ensures actor.None? ==> ids == []
    ensures actor.Some? ==> forall k: nat :: k in ids <==> k < |buckets| && CanReadBucket(actor.value, buckets[k])
    ensures Ascending(ids)
  {
    if actor.None? then [] else Select(buckets, (b: Bucket) => CanReadBucket(actor.value, b))
  }

  /** The page listing: for a signed-in user, every page they may read under the listing
      rule (which counts readers of the page's bucket), each once. */
  function PageListing(actor: Option<UserId>, pages: seq<Page>, buckets: seq<Bucket>): (ids: seq<nat>)
    requires PagesResolve(pages, buckets)
    ensures actor.None? ==> ids == []
    ensures actor.Some? ==> forall k: nat ::
              k in ids <==> k < |pages| && CanReadPage(actor.value, pages[k], buckets[pages[k].bucket])
    ensures Ascending(ids)
  {
    if actor.None? then []
    else Select(pages, (p: Page) => p.bucket < |buckets| && CanReadPage(actor.value, p, buckets[p.bucket]))
  }

  /** The comment listing: the comments of the pages the user may read, each once. */
  function CommentListing(actor: Option<UserId>, comments: seq<Comment>, pages: seq<Page>,
                          buckets: seq<Bucket>): (ids: seq<nat>)
    requires PagesResolve(pages, buckets)
    requires forall k | 0 <= k < |comments| :: comments[k].page < |pages|
    ensures actor.None? ==> ids == []
    ensures actor.Some? ==> forall k: nat ::
              k in ids <==> k < |comments| && comments[k].page in PageListing(actor, pages, buckets)
    ensures Ascending(ids)
  {
    if actor.None? then []
    else
      Select(comments, (c: Comment) =>
        c.page < |pages| && pages[c.page].bucket < |buckets|
        && CanReadPage(actor.value, pages[c.page], buckets[pages[c.page].bucket]))
  }

  /** The asset listing: the assets of the pages the user may read, each once. */
  function AssetListing(actor: Option<UserId>, assets: seq<Asset>, pages: seq<Page>,
                        buckets: seq<Bucket>): (ids: seq<nat>)
    requires PagesResolve(pages, buckets)
    requires forall k | 0 <= k < |assets| :: assets[k].page < |pages|
    ensures actor.None? ==> ids == []
    ensures actor.Some? ==> forall k: nat ::
              k in ids <==> k < |assets| && assets[k].page in PageListing(actor, pages, buckets)
    ensures Ascending(ids)
  {
    if actor.None? then []
    else
      Select(assets, (a: Asset) =>
        a.page < |pages| && pages[a.page].bucket < |buckets|
        && CanReadPage(actor.value, pages[a.page], buckets[pages[a.page].bucket]))
  }

  /** A public page of a hidden bucket stays out of the listing of a user who is neither
      its owner, nor its reader, nor a reader of its bucket. */
  lemma HiddenBucketHidesPublicPage(u: UserId, pages: seq<Page>, buckets: seq<Bucket>, k: nat)
    requires PagesResolve(pages, buckets) && k < |pages|
    requires !buckets[pages[k].bucket].visibility
    requires pages[k].owner != u && u !in pages[k].readers && u !in buckets[pages[k].bucket].readers
    ensures k !in PageListing(Some(u), pages, buckets)
  {
  }

  /** The ids a listing holds, as a set. */
  function Members(ids: seq<nat>): set<nat>
  {
    set k | k in ids
  }

  /** A listing is free of repeats, so a row matching several clauses appears once. */
  lemma {:induction false} AscendingHasNoRepeats(ids: seq<nat>)
    requires Ascending(ids)
    ensures forall i, j | 0 <= i < |ids| && 0 <= j < |ids| && i != j :: ids[i] != ids[j]
    ensures |ids| == |Members(ids)|
  {
    if ids != [] {
      var front := ids[..|ids| - 1];
      AscendingHasNoRepeats(front);
      var last := ids[|ids| - 1];
      assert last !in Members(front);
      assert Members(ids) == Members(front) + {last};
    }
  }

  /** The fixed page size of the paginated bucket listing, which is also the cap. */
  const MaxPageSize: nat := 5

  /** The page size used for a request: a positive requested size (the `size` query
      parameter), capped at 5; otherwise (absent, zero, negative or not a number) 5. */
  function PageSize(requested: Option<int>): (size: nat)
    ensures 1 <= size <= MaxPageSize
    ensures requested.Some? && 0 < requested.value <= MaxPageSize ==> size == requested.value
    ensures requested.None? || requested.value <= 0 || requested.value >= MaxPageSize ==> size == MaxPageSize
  {
    if requested.Some? && requested.value > 0 then
      (if requested.value < MaxPageSize then requested.value else MaxPageSize)
    else MaxPageSize
  }

  /** The number of pages of a listing: at least one, even for an empty listing. */
  function PageCount(count: nat, size: nat): (n: nat)
    requires size > 0
    ensures n >= 1
    ensures count > 0 ==> (n - 1) * size < count <= n * size
  {
    if count <= size then 1 else 1 + PageCount(count - size, size)
  }

  /** Page `number` (the `pageno` query parameter, 1 when absent) of a listing; a number
      outside 1 .. PageCount is refused as not found. The first page holds the first
      `size` items, and page `number + 1` is page `number` of the rest. */
  function PageOf<T>(items: seq<T>, size: nat, number: int): (r: Result<seq<T>, string>)
    requires size > 0
    decreases |items|
    ensures r.Success? <==> 1 <= number <= PageCount(|items|, size)
    ensures r.Success? ==> |r.value| <= size
    ensures r.Failure? ==> r.error == "Invalid page."
  {
    if number < 1 || number > PageCount(|items|, size) then Failure("Invalid page.")
    else if number == 1 then Success(if |items| <= size then items else items[..size])
    else PageOf(items[size..], size, number - 1)
  }

  /** A listing long enough to hold position `q * size + r` has at least `q + 1` pages. */
  lemma {:induction false} PageCountCovers(count: nat, size: nat, q: nat, r: nat)
    requires size > 0 && r < size && q * size + r < count
    ensures q + 1 <= PageCount(count, size)
  {
    if q > 0 {
      assert q * size == (q - 1) * size + size;
      PageCountCovers(count - size, size, q - 1, r);
    }
  }

  /** Every row of a listing is on the page its position says, at the place the remainder
      says: pagination loses and repeats nothing. */
  lemma {:induction false} EveryItemOnItsPage<T>(items: seq<T>, size: nat, q: nat, r: nat)
    requires size > 0 && r < size && q * size + r < |items|
    ensures var res := PageOf(items, size, q + 1);
            res.Success? && r < |res.value| && res.value[r] == items[q * size + r]
  {
    PageCountCovers(|items|, size, q, r);
    if q > 0 {
      assert q * size == (q - 1) * size + size;
      var rest := items[size..];
      assert PageOf(items, size, q + 1) == PageOf(rest, size, q);
      EveryItemOnItsPage(rest, size, q - 1, r);
      assert rest[(q - 1) * size + r] == items[q * size + r];
    }
  }

  /** Creating a bucket through the API: the viewset and the serializer both set the
      owner to the requesting user, whatever the input said, before the model's save.
      Creation succeeds exactly when the bucket is top-level or its parent belongs to the
      user; the stored row is the input with that owner and its generated slug. */
  method CreateBucket(table: Buckets.BucketTable, actor: UserId, input: Bucket, slugify: string -> string)
    returns (slug: string, r: Result<nat, Buckets.SaveError>)
    requires table.Valid() && input.slug == ""
    requires input.parent.Some? ==> input.parent.value < |table.rows|
    modifies table
    ensures table.Valid()
    ensures r.Success? <==> input.parent.None? || old(table.rows)[input.parent.value].owner == actor
    ensures r.Failure? ==> r == Failure(Buckets.Invalid(BucketTree.OwnerMismatch)) && table.rows == old(table.rows)
    ensures r.Success? ==> r.value == |old(table.rows)| && slug != ""
                           && table.rows == old(table.rows) + [input.(owner := actor, slug := slug)]
    ensures r.Success? && BucketTree.Acyclic(old(table.rows)) ==> BucketTree.Acyclic(table.rows)
  {
    slug, r := table.SaveById(None, input.(owner := actor), slugify);
  }

  /** Creating a page through the API: the owner is the requesting user, so the model's
      owner check lets a user create pages only in buckets they own. The stored row is the
      input with that owner and its generated slug; revisions are untouched. */
  method CreatePage(store: Pages.PageStore, buckets: seq<Bucket>, actor: UserId, input: Page,
                    slugify: string -> string)
    returns (slug: string, r: Result<nat, Pages.PageSaveError>)
    requires store.Valid() && input.slug == "" && input.description == ""
    requires input.bucket < |buckets|
    modifies store
    ensures store.Valid() && store.revisions == old(store.revisions)
    ensures r.Success? <==> buckets[input.bucket].owner == actor
    ensures r.Failure? ==> r == Failure(Pages.OwnerMismatch) && store.pages == old(store.pages)
    ensures r.Success? ==> r.value == |old(store.pages)| && slug != ""
                           && store.pages == old(store.pages) + [input.(owner := actor, slug := slug)]
  {
    slug, r := store.Save(None, input.(owner := actor), buckets, slugify);
  }
}
