/** The page and revision tables: the save path of a page, the save path of a revision
    (auto-numbering and the description refresh), and `create_revision`, which folds small
    edits into the latest revision. */
module Pages {

  import opened Common
  import opened Records
  import Slugs
  import opened RevisionLog

  datatype PageSaveError = OwnerMismatch | DuplicateSlug
  datatype RevisionError = NotOwner | DuplicateNumber

  /** An edit whose length differs from the latest revision's by less than this many
      characters overwrites that revision instead of adding one. */
  const AmendWindow: nat := 1500

  /** The slug column of the page table. */
  function SlugColumn(pages: seq<Page>): (column: seq<string>)
    ensures |column| == |pages|
    ensures forall k | 0 <= k < |pages| :: column[k] == pages[k].slug
  {
    seq(|pages|, k requires 0 <= k < |pages| => pages[k].slug)
  }

  /** `save` looks the page up by its current slug and regenerates the slug when there is
      none or when the stored title differs. */
  predicate NeedsNewSlug(pages: seq<Page>, p: Page)
  {
    var k := Slugs.IndexOf(SlugColumn(pages), p.slug);
    p.slug == "" || (k.Some? && pages[k.value].title != p.title)
  }

  /** The slug `save` gives page `p`: kept, or the first free candidate built from the
      slugified title (or "page"). */
  ghost predicate SlugAfterSave(pages: seq<Page>, p: Page, slugify: string -> string, slug: string)
  {
    Slugs.Settled(SlugColumn(pages), p.slug, NeedsNewSlug(pages, p), Slugs.Base(slugify(p.title), "page"), slug)
  }

  /** Another revision of `page` than `self` already has `number`. */
  predicate NumberHeld(revs: seq<Revision>, self: Option<nat>, page: nat, number: nat)
  {
    exists j | 0 <= j < |revs| :: revs[j].page == page && revs[j].number == number && self != Some(j)
  }

  /** `abs(len(a) - len(b))`. */
  function LengthGap(a: string, b: string): nat
  {
    if |a| >= |b| then |a| - |b| else |b| - |a|
  }

  /** Slugs present and unique; revisions belong to stored pages, are numbered from 1 and
      unique per page; every page's description is its latest revision's content. */
  ghost predicate WellFormed(pages: seq<Page>, revs: seq<Revision>)
  {
    SlugsPresent(pages) && RevisionsBelong(revs, |pages|) && UniqueNumbers(revs) && Synced(pages, revs)
  }

  predicate SlugsPresent(pages: seq<Page>)
  {
    (forall k | 0 <= k < |pages| :: pages[k].slug != "") && Slugs.Distinct(SlugColumn(pages))
  }

  predicate RevisionsBelong(revs: seq<Revision>, count: nat)
  {
    forall j | 0 <= j < |revs| :: revs[j].page < count && revs[j].number >= 1
  }

  /** `update_description_from_revisions` has run for every page. */
  predicate Synced(pages: seq<Page>, revs: seq<Revision>)
  {
    forall k | 0 <= k < |pages| :: pages[k].description == ContentOf(revs, k)
  }

  /** Writing a page row with a fresh slug and its current description keeps the tables
      well formed. */
  lemma PageWriteKeeps(pages: seq<Page>, revs: seq<Revision>, self: Option<nat>, p: Page)
    requires WellFormed(pages, revs) && (self.Some? ==> self.value < |pages|)
    requires p.slug != "" && !Slugs.HeldElsewhere(SlugColumn(pages), self, p.slug)
    requires p.description == (if self.Some? then pages[self.value].description else "")
    ensures WellFormed(Upsert(pages, self, p), revs)
  {
    var pages' := Upsert(pages, self, p);
    forall i, j | 0 <= i < |pages'| && 0 <= j < |pages'| && i != j
      ensures pages'[i].slug != pages'[j].slug
    {
      if self != Some(i) && self != Some(j) && i < |pages| && j < |pages| {
        assert pages'[i] == pages[i] && pages'[j] == pages[j];
      }
    }
    if self.None? {
      assert Latest(revs, |pages|) == None;
    }
    assert Synced(pages', revs) by {
      forall k | 0 <= k < |pages'| ensures pages'[k].description == ContentOf(revs, k) {
        if k < |pages| && self != Some(k) {
          assert pages'[k] == pages[k];
        }
      }
    }
  }

  /** Writing a revision whose number is free for its page, and then refreshing that
      page's description, keeps the tables well formed. */
  lemma RevisionWriteKeeps(pages: seq<Page>, revs: seq<Revision>, self: Option<nat>, rev: Revision)
    requires WellFormed(pages, revs) && rev.page < |pages| && rev.number >= 1
    requires self.Some? ==> self.value < |revs| && revs[self.value].page == rev.page
    requires !NumberHeld(revs, self, rev.page, rev.number)
    ensures var revs' := Upsert(revs, self, rev);
            WellFormed(pages[rev.page := pages[rev.page].(description := ContentOf(revs', rev.page))], revs')
  {
    var revs' := Upsert(revs, self, rev);
    var pages' := pages[rev.page := pages[rev.page].(description := ContentOf(revs', rev.page))];
    forall q | 0 <= q < |pages| && q != rev.page
      ensures ContentOf(revs', q) == ContentOf(revs, q)
    {
      if self.Some? {
        LatestAfterOtherUpdate(revs, self.value, rev, q);
      } else {
        LatestAfterOtherAppend(revs, rev, q);
      }
    }
    assert SlugColumn(pages') == SlugColumn(pages);
    assert Synced(pages', revs');
    assert UniqueNumbers(revs') by {
      forall i, j | 0 <= i < |revs'| && 0 <= j < |revs'| && i != j && revs'[i].page == revs'[j].page
        ensures revs'[i].number != revs'[j].number
      {
        if Some(i) != self && i < |revs| && Some(j) != self && j < |revs| {
          assert revs'[i] == revs[i] && revs'[j] == revs[j];
        }
      }
    }
  }

  /** Rewriting a revision of another page leaves a page's latest revision alone. */
  lemma {:induction false} LatestAfterOtherUpdate(revs: seq<Revision>, i: nat, r: Revision, q: nat)
    requires i < |revs| && revs[i].page != q && r.page != q
    ensures Latest(revs[i := r], q) == Latest(revs, q)
  {
    var revs' := revs[i := r];
    var n := |revs| - 1;
    if i < n {
      assert revs'[..n] == revs[..n][i := r] && revs'[n] == revs[n];
      LatestAfterOtherUpdate(revs[..n], i, r, q);
    } else {
      assert revs'[..n] == revs[..n];
    }
  }

  /** Adding a revision of another page leaves a page's latest revision alone. */
  lemma LatestAfterOtherAppend(revs: seq<Revision>, r: Revision, q: nat)
    requires r.page != q
    ensures Latest(revs + [r], q) == Latest(revs, q)
  {
    assert (revs + [r])[..|revs|] == revs;
  }

  class PageStore {
    var pages: seq<Page>
    var revisions: seq<Revision>

    ghost predicate Valid()
      reads this
    {
      WellFormed(pages, revisions)
    }

    constructor ()
      ensures Valid() && pages == [] && revisions == []
    {
      pages := [];
      revisions := [];
    }

    /** `generate_slug`: the first free candidate for the page's title. */
    method GenerateSlug(p: Page, slugify: string -> string) returns (slug: string)
      ensures Slugs.SmallestFree(Slugs.Base(slugify(p.title), "page"), '-',
                                 Slugs.TakenBy(SlugColumn(pages), p.slug), slug)
    {
      var base := Slugs.Base(slugify(p.title), "page");
      slug := Slugs.Allocate(base, '-', Slugs.TakenBy(SlugColumn(pages), p.slug));
    }

    /** The slug part of `Page.save`: keep the slug, or regenerate it when it is missing
        or the stored title differs. A slug the page already had, or a regenerated one, is
        free; any slug no other row holds is non-empty. */
    method SettleSlug(self: Option<nat>, p: Page, slugify: string -> string) returns (slug: string)
      requires Valid()
      requires self.Some? ==> self.value < |pages|
      ensures SlugAfterSave(pages, p, slugify, slug)
      ensures p.slug == "" || (self.Some? && p.slug == pages[self.value].slug)
              ==> !Slugs.HeldElsewhere(SlugColumn(pages), self, slug)
      ensures !Slugs.HeldElsewhere(SlugColumn(pages), self, slug) ==> slug != ""
    {
      slug := p.slug;
      if NeedsNewSlug(pages, p) {
        slug := GenerateSlug(p, slugify);
      }
      var column := SlugColumn(pages);
      var base := Slugs.Base(slugify(p.title), "page");
      assert SlugAfterSave(pages, p, slugify, slug);
      if p.slug == "" || (self.Some? && p.slug == pages[self.value].slug) {
        Slugs.SettledIsFree(column, self, p.slug, NeedsNewSlug(pages, p), base, slug);
      }
      if NeedsNewSlug(pages, p) {
        Slugs.SmallestFreeNonEmpty(base, '-', Slugs.TakenBy(column, p.slug), slug);
      }
    }

    /** `Page.save`: refuse a page whose owner is not its bucket's owner, settle the slug,
        write the row. `self` is the page's primary key, `None` for a new page; the
        instance carries the description stored for it (none for a new page). */
    method Save(self: Option<nat>, p: Page, buckets: seq<Bucket>, slugify: string -> string)
      returns (slug: string, r: Result<nat, PageSaveError>)
      requires Valid()
      requires self.Some? ==> self.value < |pages|
      requires p.bucket < |buckets|
      requires p.description == (if self.Some? then pages[self.value].description else "")
      modifies this
      ensures Valid() && revisions == old(revisions)
      ensures buckets[p.bucket].owner != p.owner ==> slug == p.slug && r == Failure(OwnerMismatch)
      ensures buckets[p.bucket].owner == p.owner ==>
                && SlugAfterSave(old(pages), p, slugify, slug)
                && if Slugs.HeldElsewhere(SlugColumn(old(pages)), self, slug) then r == Failure(DuplicateSlug)
                   else r == Success(if self.Some? then self.value else |old(pages)|)
      ensures r.Failure? ==> pages == old(pages)
      ensures r.Success? ==> pages == Upsert(old(pages), self, p.(slug := slug))
      ensures p.slug == "" || (self.Some? && p.slug == old(pages)[self.value].slug)
              ==> r != Failure(DuplicateSlug)
    {
      slug := p.slug;
      if buckets[p.bucket].owner != p.owner {
        return slug, Failure(OwnerMismatch);
      }
      slug := SettleSlug(self, p, slugify);
      if Slugs.HeldElsewhere(SlugColumn(pages), self, slug) {
        return slug, Failure(DuplicateSlug);
      }
      var saved := p.(slug := slug);
      PageWriteKeeps(pages, revisions, self, saved);
      pages := Upsert(pages, self, saved);
      r := Success(if self.Some? then self.value else |pages| - 1);
    }

    /** `Revisions.save`: a revision without a number (0) gets one past the page's highest,
        the unique pair (page, number) refuses a number already used, and after the write
        the page's description is refreshed from its latest revision. A stored revision
        keeps its page. */
    method SaveRevision(self: Option<nat>, rev: Revision) returns (r: Result<nat, RevisionError>)
      requires Valid()
      requires rev.page < |pages|
      requires self.Some? ==> self.value < |revisions| && revisions[self.value].page == rev.page
      modifies this
      ensures Valid()
      ensures var number := if rev.number == 0 then NextNumber(old(revisions), rev.page) else rev.number;
              if NumberHeld(old(revisions), self, rev.page, number)
              then r == Failure(DuplicateNumber) && revisions == old(revisions) && pages == old(pages)
              else
                && r == Success(if self.Some? then self.value else |old(revisions)|)
                && revisions == Upsert(old(revisions), self, rev.(number := number))
                && pages == old(pages)[rev.page := old(pages)[rev.page].(description := ContentOf(revisions, rev.page))]
    {
      var number := rev.number;
      if number == 0 {
        number := NextNumber(revisions, rev.page);
      }
      if exists j | 0 <= j < |revisions| :: revisions[j].page == rev.page && revisions[j].number == number && self != Some(j) {
        return Failure(DuplicateNumber);
      }
      var saved := rev.(number := number);
      RevisionWriteKeeps(pages, revisions, self, saved);
      r := Success(if self.Some? then self.value else |revisions|);
      revisions := Upsert(revisions, self, saved);
      pages := pages[rev.page := pages[rev.page].(description := ContentOf(revisions, rev.page))];
    }

    /** `create_revision`: only the page's owner may write when a user is given; an edit
        close in length to the latest revision overwrites it in place (same number, new
        time), any other edit is added as revision latest + 1 (or 1). */
    method CreateRevision(pid: nat, content: string, user: Option<UserId>, now: int)
      returns (r: Result<nat, RevisionError>)
      requires Valid() && pid < |pages|
      modifies this
      ensures Valid()
      ensures user.Some? && user.value != old(pages)[pid].owner ==>
                r == Failure(NotOwner) && revisions == old(revisions) && pages == old(pages)
      ensures user.None? || user.value == old(pages)[pid].owner ==>
                && r.Success?
                && ContentOf(revisions, pid) == content
                && pages == old(pages)[pid := old(pages)[pid].(description := content)]
                && (Gapless(old(revisions), pid) ==> Gapless(revisions, pid))
                && var last := Latest(old(revisions), pid);
                   if last.Some? && LengthGap(content, old(revisions)[last.value].diff) < AmendWindow
                   then r == Success(last.value)
                        && revisions == old(revisions)[last.value := old(revisions)[last.value].(diff := content, timestamp := now)]
                   else r == Success(|old(revisions)|)
                        && revisions == old(revisions) + [Revision(pid, NextNumber(old(revisions), pid), content, now)]
    {
      if user.Some? && user.value != pages[pid].owner {
        return Failure(NotOwner);
      }
      var last := Latest(revisions, pid);
      if last.Some? && LengthGap(content, revisions[last.value].diff) < AmendWindow {
        r := AmendRevision(pid, last.value, content, now);
      } else {
        r := AppendRevision(pid, content, now);
      }
    }

    /** The amending branch of `create_revision`: the latest revision `k` takes the new
        content and time and keeps its number. */
    method AmendRevision(pid: nat, k: nat, content: string, now: int) returns (r: Result<nat, RevisionError>)
      requires Valid() && pid < |pages| && Latest(revisions, pid) == Some(k)
      modifies this
      ensures Valid()
      ensures r == Success(k) && revisions == old(revisions)[k := old(revisions)[k].(diff := content, timestamp := now)]
      ensures pages == old(pages)[pid := old(pages)[pid].(description := content)]
      ensures ContentOf(revisions, pid) == content
      ensures Gapless(old(revisions), pid) ==> Gapless(revisions, pid)
    {
      AmendLatest(revisions, pid, k, content, now);
      r := SaveRevision(Some(k), revisions[k].(diff := content, timestamp := now));
    }

    /** The appending branch of `create_revision`: a new revision numbered one past the
        page's highest. */
    method AppendRevision(pid: nat, content: string, now: int) returns (r: Result<nat, RevisionError>)
      requires Valid() && pid < |pages|
      modifies this
      ensures Valid()
      ensures r == Success(|old(revisions)|)
              && revisions == old(revisions) + [Revision(pid, NextNumber(old(revisions), pid), content, now)]
      ensures pages == old(pages)[pid := old(pages)[pid].(description := content)]
      ensures ContentOf(revisions, pid) == content
      ensures Gapless(old(revisions), pid) ==> Gapless(revisions, pid)
    {
      var next := NextNumber(revisions, pid);
      AppendNext(revisions, pid, Revision(pid, next, content, now));
      r := SaveRevision(None, Revision(pid, next, content, now));
    }
  }
}
