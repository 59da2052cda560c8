/** The computed fields of a page's representation: whether the requester may edit it, and
    the links to the neighbouring pages of its bucket in reading order (`porder`). */
module PageSerializer {

  import opened Common
  import opened Records
  import Access
  import Permissions

  /** `get_can_edit`: the requester is the page's owner; an anonymous visitor never is. */
  predicate CanEdit(actor: Option<UserId>, p: Page)
  {
    actor == Some(p.owner)
  }

  /** The flag shown to the client agrees with what the write endpoints enforce. */
  lemma CanEditMatchesWriteRule(m: Permissions.Method, actor: Option<UserId>, p: Page)
    requires !Permissions.Safe(m)
    ensures CanEdit(actor, p) <==> Permissions.HasObjectPermission(m, actor, Permissions.OfPage(p))
  {
  }

  /** Row `j` is a page of the same bucket as `obj`, placed strictly after it, that the
      requester may see under the summary rule. */
  predicate Later(actor: Option<UserId>, pages: seq<Page>, buckets: seq<Bucket>, obj: Page, j: nat)
    requires obj.bucket < |buckets|
  {
    j < |pages| && pages[j].bucket == obj.bucket && pages[j].porder > obj.porder
    && Access.CanSeePage(actor, pages[j], buckets[obj.bucket])
  }

  /** Row `j` is a visible page of the same bucket placed strictly before `obj`. */
  predicate Earlier(actor: Option<UserId>, pages: seq<Page>, buckets: seq<Bucket>, obj: Page, j: nat)
    requires obj.bucket < |buckets|
  {
    j < |pages| && pages[j].bucket == obj.bucket && pages[j].porder < obj.porder
    && Access.CanSeePage(actor, pages[j], buckets[obj.bucket])
  }

  /** The first `n` rows' best candidate for `next`: the lowest `porder` among the later
      pages, the lowest id among equal ones. */
  function NextAmong(actor: Option<UserId>, pages: seq<Page>, buckets: seq<Bucket>, obj: Page, n: nat): (k: Option<nat>)
    requires obj.bucket < |buckets| && n <= |pages|
    ensures k.Some? ==> k.value < n && Later(actor, pages, buckets, obj, k.value)
    ensures k.Some? ==> forall j | 0 <= j < n && Later(actor, pages, buckets, obj, j) ::
              pages[k.value].porder < pages[j].porder || (pages[k.value].porder == pages[j].porder && k.value <= j)
    ensures k.None? ==> forall j | 0 <= j < n :: !Later(actor, pages, buckets, obj, j)
  {
    if n == 0 then None
    else
      var best := NextAmong(actor, pages, buckets, obj, n - 1);
      if !Later(actor, pages, buckets, obj, n - 1) then best
      else if best.Some? && pages[best.value].porder <= pages[n - 1].porder then best
      else Some(n - 1)
  }

  /** The first `n` rows' best candidate for `before`: the highest `porder` among the
      earlier pages, the lowest id among equal ones. */
  function BeforeAmong(actor: Option<UserId>, pages: seq<Page>, buckets: seq<Bucket>, obj: Page, n: nat): (k: Option<nat>)
    requires obj.bucket < |buckets| && n <= |pages|
    ensures k.Some? ==> k.value < n && Earlier(actor, pages, buckets, obj, k.value)
    ensures k.Some? ==> forall j | 0 <= j < n && Earlier(actor, pages, buckets, obj, j) ::
              pages[k.value].porder > pages[j].porder || (pages[k.value].porder == pages[j].porder && k.value <= j)
    ensures k.None? ==> forall j | 0 <= j < n :: !Earlier(actor, pages, buckets, obj, j)
  {
    if n == 0 then None
    else
      var best := BeforeAmong(actor, pages, buckets, obj, n - 1);
      if !Earlier(actor, pages, buckets, obj, n - 1) then best
      else if best.Some? && pages[best.value].porder >= pages[n - 1].porder then best
      else Some(n - 1)
  }

  /** `get_next`: the visible page of the same bucket with the closest higher `porder`,
      or none. */
  function Next(actor: Option<UserId>, pages: seq<Page>, buckets: seq<Bucket>, obj: Page): (k: Option<nat>)
    requires obj.bucket < |buckets|
    ensures k.Some? ==> Later(actor, pages, buckets, obj, k.value)
    ensures k.Some? ==> forall j: nat | Later(actor, pages, buckets, obj, j) ::
              pages[k.value].porder < pages[j].porder || (pages[k.value].porder == pages[j].porder && k.value <= j)
    ensures k.None? <==> forall j: nat :: !Later(actor, pages, buckets, obj, j)
  {
    NextAmong(actor, pages, buckets, obj, |pages|)
  }

  /** `get_before`: the visible page of the same bucket with the closest lower `porder`,
      or none. */
  function Before(actor: Option<UserId>, pages: seq<Page>, buckets: seq<Bucket>, obj: Page): (k: Option<nat>)
    requires obj.bucket < |buckets|
    ensures k.Some? ==> Earlier(actor, pages, buckets, obj, k.value)
    ensures k.Some? ==> forall j: nat | Earlier(actor, pages, buckets, obj, j) ::
              pages[k.value].porder > pages[j].porder || (pages[k.value].porder == pages[j].porder && k.value <= j)
    ensures k.None? <==> forall j: nat :: !Earlier(actor, pages, buckets, obj, j)
  {
    BeforeAmong(actor, pages, buckets, obj, |pages|)
  }

  /** The two links bracket the page: `before.porder < obj.porder < next.porder`, both in
      the page's bucket. */
  lemma LinksBracket(actor: Option<UserId>, pages: seq<Page>, buckets: seq<Bucket>, obj: Page)
    requires obj.bucket < |buckets|
    ensures var b := Before(actor, pages, buckets, obj);
            var n := Next(actor, pages, buckets, obj);
            b.Some? && n.Some? ==>
              pages[b.value].porder < obj.porder < pages[n.value].porder
              && pages[b.value].bucket == obj.bucket == pages[n.value].bucket
  {
  }

  /** Following `next` and then `before` returns to a visible page, as long as no visible
      page of the bucket with a lower id shares its `porder`. */
  lemma NextThenBefore(actor: Option<UserId>, pages: seq<Page>, buckets: seq<Bucket>, a: nat)
    requires a < |pages| && pages[a].bucket < |buckets|
    requires Access.CanSeePage(actor, pages[a], buckets[pages[a].bucket])
    requires forall j | 0 <= j < |pages| && pages[j].bucket == pages[a].bucket
               && pages[j].porder == pages[a].porder
               && Access.CanSeePage(actor, pages[j], buckets[pages[a].bucket]) :: a <= j
    ensures var n := Next(actor, pages, buckets, pages[a]);
            n.Some? ==> Before(actor, pages, buckets, pages[n.value]) == Some(a)
  {
    var n := Next(actor, pages, buckets, pages[a]);
    if n.Some? {
      var obj := pages[n.value];
      assert Earlier(actor, pages, buckets, obj, a);
      var c := Before(actor, pages, buckets, obj);
      assert c.Some?;
      var k := c.value;
      // `k` lies before `next`, so it cannot lie after `a`.
      assert !Later(actor, pages, buckets, pages[a], k);
      assert pages[k].porder == pages[a].porder;
      assert k <= a;
    }
  }

  /** Following `before` and then `next` returns to a visible page, as long as no visible
      page of the bucket with a lower id shares its `porder`. */
  lemma BeforeThenNext(actor: Option<UserId>, pages: seq<Page>, buckets: seq<Bucket>, a: nat)
    requires a < |pages| && pages[a].bucket < |buckets|
    requires Access.CanSeePage(actor, pages[a], buckets[pages[a].bucket])
    requires forall j | 0 <= j < |pages| && pages[j].bucket == pages[a].bucket
               && pages[j].porder == pages[a].porder
               && Access.CanSeePage(actor, pages[j], buckets[pages[a].bucket]) :: a <= j
    ensures var b := Before(actor, pages, buckets, pages[a]);
            b.Some? ==> Next(actor, pages, buckets, pages[b.value]) == Some(a)
  {
    var b := Before(actor, pages, buckets, pages[a]);
    if b.Some? {
      var obj := pages[b.value];
      assert Later(actor, pages, buckets, obj, a);
      var c := Next(actor, pages, buckets, obj);
      assert c.Some?;
      var k := c.value;
      assert !Earlier(actor, pages, buckets, pages[a], k);
      assert pages[k].porder == pages[a].porder;
      assert k <= a;
    }
  }
}
