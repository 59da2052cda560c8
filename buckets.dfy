/** The bucket table and the save path of a bucket: slug generation, the `clean` check
    and the write. */
module Buckets {

  import opened Common
  import opened Records
  import Slugs
  import opened BucketTree

  /** Why a save was refused: a failed `clean`, or the unique index on the slug column. */
  datatype SaveError = Invalid(reason: CleanError) | DuplicateSlug

  /** The slug column of the table. */
  function SlugColumn(rows: seq<Bucket>): (column: seq<string>)
    ensures |column| == |rows|
    ensures forall k | 0 <= k < |rows| :: column[k] == rows[k].slug
  {
    seq(|rows|, k requires 0 <= k < |rows| => rows[k].slug)
  }

  /** `save` looks the bucket up by its current slug and regenerates the slug when there
      is none or when the stored name differs. */
  predicate NeedsNewSlug(rows: seq<Bucket>, b: Bucket)
  {
    var k := Slugs.IndexOf(SlugColumn(rows), b.slug);
    b.slug == "" || (k.Some? && rows[k.value].name != b.name)
  }

  /** The slug `save` gives bucket `b`: kept as it is, or the first free candidate built
      from the slugified name (or "bucket"). */
  ghost predicate SlugAfterSave(rows: seq<Bucket>, b: Bucket, slugify: string -> string, slug: string)
  {
    Slugs.Settled(SlugColumn(rows), b.slug, NeedsNewSlug(rows, b), Slugs.Base(slugify(b.name), "bucket"), slug)
  }

  /** Foreign keys resolve, and slugs are present and unique. */
  predicate WellFormed(rows: seq<Bucket>)
  {
    ParentsInRange(rows) && UniqueSlugs(rows) && forall k | 0 <= k < |rows| :: rows[k].slug != ""
  }

  /** Writing a row whose slug is present and held by no other row, and whose parent
      exists, keeps the table well formed. */
  lemma StoredWellFormed(rows: seq<Bucket>, self: Option<nat>, b: Bucket)
    requires WellFormed(rows) && (self.Some? ==> self.value < |rows|)
    requires b.parent.Some? ==> b.parent.value < |rows|
    requires b.slug != "" && !Slugs.HeldElsewhere(SlugColumn(rows), self, b.slug)
    ensures WellFormed(Upsert(rows, self, b))
  {
    var rows' := Upsert(rows, self, b);
    forall i, j | 0 <= i < |rows'| && 0 <= j < |rows'| && i != j
      ensures rows'[i].slug != rows'[j].slug
    {
      if i < |rows| && j < |rows| && self != Some(i) && self != Some(j) {
        assert rows'[i] == rows[i] && rows'[j] == rows[j];
      }
    }
  }

  class BucketTable {
    var rows: seq<Bucket>

    ghost predicate Valid()
      reads this
    {
      WellFormed(rows)
    }

    constructor ()
      ensures Valid() && rows == []
    {
      rows := [];
    }

    /** `generate_slug`: the first free candidate for the bucket's name. The bucket's own
        current slug is not a collision. */
    method GenerateSlug(b: Bucket, slugify: string -> string) returns (slug: string)
      ensures Slugs.SmallestFree(Slugs.Base(slugify(b.name), "bucket"), '-',
                                 Slugs.TakenBy(SlugColumn(rows), b.slug), slug)
    {
      var base := Slugs.Base(slugify(b.name), "bucket");
      slug := Slugs.Allocate(base, '-', Slugs.TakenBy(SlugColumn(rows), b.slug));
    }

    /** The slug part of `save`: keep the slug, or regenerate it when it is missing or
        the stored name differs. A slug the bucket already had, or a regenerated one, is
        free; any slug no other row holds is non-empty. */
    method SettleSlug(self: Option<nat>, b: Bucket, slugify: string -> string) returns (slug: string)
      requires Valid()
      requires self.Some? ==> self.value < |rows|
      ensures SlugAfterSave(rows, b, slugify, slug)
      ensures b.slug == "" || (self.Some? && b.slug == rows[self.value].slug)
              ==> !Slugs.HeldElsewhere(SlugColumn(rows), self, slug)
      ensures !Slugs.HeldElsewhere(SlugColumn(rows), self, slug) ==> slug != ""
    {
      slug := b.slug;
      if NeedsNewSlug(rows, b) {
        slug := GenerateSlug(b, slugify);
      }
      var column := SlugColumn(rows);
      var base := Slugs.Base(slugify(b.name), "bucket");
      assert SlugAfterSave(rows, b, slugify, slug);
      if b.slug == "" || (self.Some? && b.slug == rows[self.value].slug) {
        Slugs.SettledIsFree(column, self, b.slug, NeedsNewSlug(rows, b), base, slug);
      }
      if NeedsNewSlug(rows, b) {
        Slugs.SmallestFreeNonEmpty(base, '-', Slugs.TakenBy(column, b.slug), slug);
      }
    }

    /** `clean`: the owner test, the self-parent test and the walk up the parent chain,
        which stops at a missing parent or at a slug seen before. */
    method Clean(self: Option<nat>, b: Bucket) returns (err: Option<CleanError>)
      requires Valid()
      requires b.parent.Some? ==> b.parent.value < |rows|
      ensures err == CleanCheck(rows, self, b)
    {
      if b.parent.Some? && rows[b.parent.value].owner != b.owner {
        return Some(OwnerMismatch);
      }
      if b.parent.Some? {
        if self == b.parent {
          return Some(SelfParent);
        }
        if b.slug != "" {
          var hit := SlugHit(rows, b.slug);
          var current: Option<nat> := b.parent;
          var visited: set<string> := {};
          while current.Some?
            invariant current.Some? ==> current.value < |rows|
            invariant ChainWalk(rows, current, hit, visited) == ChainWalk(rows, b.parent, hit, {})
            decreases |AllSlugs(rows) - visited|
          {
            var c := current.value;
            if rows[c].slug == b.slug {
              return Some(CircularParent);
            }
            if rows[c].slug in visited {
              break;
            }
            VisitShrinks(AllSlugs(rows), visited, rows[c].slug);
            visited := visited + {rows[c].slug};
            current := rows[c].parent;
          }
        }
      }
      return None;
    }

    /** `save`: settle the slug (the instance keeps it even when the save fails), run
        `clean`, then write the row; the unique index refuses a slug another row holds.
        `self` is the bucket's primary key, `None` for a bucket never saved. */
    method Save(self: Option<nat>, b: Bucket, slugify: string -> string)
      returns (slug: string, r: Result<nat, SaveError>)
      requires Valid()
      requires self.Some? ==> self.value < |rows|
      requires b.parent.Some? ==> b.parent.value < |rows|
      modifies this
      ensures Valid()
      ensures SlugAfterSave(old(rows), b, slugify, slug)
      ensures match CleanCheck(old(rows), self, b.(slug := slug))
              case Some(e) => r == Failure(Invalid(e))
              case None =>
                if Slugs.HeldElsewhere(SlugColumn(old(rows)), self, slug) then r == Failure(DuplicateSlug)
                else r == Success(if self.Some? then self.value else |old(rows)|)
      ensures r.Failure? ==> rows == old(rows)
      ensures r.Success? ==> rows == Upsert(old(rows), self, b.(slug := slug))
      ensures b.slug == "" || (self.Some? && b.slug == old(rows)[self.value].slug)
              ==> r != Failure(DuplicateSlug)
      ensures r.Success? && Acyclic(old(rows)) && (self.Some? ==> slug == old(rows)[self.value].slug)
              ==> Acyclic(rows)
    {
      slug := SettleSlug(self, b, slugify);
      var saved := b.(slug := slug);
      var err := Clean(self, saved);
      if err.Some? {
        return slug, Failure(Invalid(err.value));
      }
      if Slugs.HeldElsewhere(SlugColumn(rows), self, slug) {
        return slug, Failure(DuplicateSlug);
      }
      StoredWellFormed(rows, self, saved);
      if self.Some? {
        if Acyclic(rows) && slug == rows[self.value].slug {
          CleanKeepsAcyclic(rows, self.value, saved);
        }
        rows := rows[self.value := saved];
        r := Success(self.value);
      } else {
        if Acyclic(rows) {
          AppendKeepsAcyclic(rows, saved);
        }
        rows := rows + [saved];
        r := Success(|rows| - 1);
      }
    }

    /** `save` with the cycle test of `clean` comparing primary keys (`CleanCheckById`):
        a save that goes through keeps the tree acyclic, renamed or not. */
    method SaveById(self: Option<nat>, b: Bucket, slugify: string -> string)
      returns (slug: string, r: Result<nat, SaveError>)
      requires Valid()
      requires self.Some? ==> self.value < |rows|
      requires b.parent.Some? ==> b.parent.value < |rows|
      modifies this
      ensures Valid()
      ensures SlugAfterSave(old(rows), b, slugify, slug)
      ensures match CleanCheckById(old(rows), self, b.(slug := slug))
              case Some(e) => r == Failure(Invalid(e))
              case None =>
                if Slugs.HeldElsewhere(SlugColumn(old(rows)), self, slug) then r == Failure(DuplicateSlug)
                else r == Success(if self.Some? then self.value else |old(rows)|)
      ensures r.Failure? ==> rows == old(rows)
      ensures r.Success? ==> rows == Upsert(old(rows), self, b.(slug := slug))
      ensures b.slug == "" || (self.Some? && b.slug == old(rows)[self.value].slug)
              ==> r != Failure(DuplicateSlug)
      ensures r.Success? && Acyclic(old(rows)) ==> Acyclic(rows)
    {
      slug := SettleSlug(self, b, slugify);
      var saved := b.(slug := slug);
      var err := CleanCheckById(rows, self, saved);
      if err.Some? {
        return slug, Failure(Invalid(err.value));
      }
      if Slugs.HeldElsewhere(SlugColumn(rows), self, slug) {
        return slug, Failure(DuplicateSlug);
      }
      StoredWellFormed(rows, self, saved);
      if self.Some? {
        if Acyclic(rows) {
          CleanByIdKeepsAcyclic(rows, self.value, saved);
        }
        rows := rows[self.value := saved];
        r := Success(self.value);
      } else {
        if Acyclic(rows) {
          AppendKeepsAcyclic(rows, saved);
        }
        rows := rows + [saved];
        r := Success(|rows| - 1);
      }
    }
  }
}
