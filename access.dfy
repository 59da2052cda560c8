/** The read rules shared by the listings and the nested summaries. */
module Access {

  import opened Common
  import opened Records

  /** A signed-in user may read a bucket they own, one they are a reader of, and every
      visible bucket. */
  predicate CanReadBucket(u: UserId, b: Bucket)
  {
    b.owner == u || u in b.readers || b.visibility
  }

  /** The page rule of the page, comment and asset listings: the page's owner, its readers,
      the readers of its bucket, and everybody for a public page in a visible bucket. */
  predicate CanReadPage(u: UserId, p: Page, bucket: Bucket)
  {
    p.owner == u || u in p.readers || u in bucket.readers || (p.public && bucket.visibility)
  }

  /** The narrower page rule of the nested page summaries and the previous/next links:
      no bucket-reader clause, and an anonymous visitor (`None`) sees only the public pages
      of a visible bucket. */
  predicate CanSeePage(actor: Option<UserId>, p: Page, bucket: Bucket)
  {
    (actor.Some? && (p.owner == actor.value || actor.value in p.readers))
    || (p.public && bucket.visibility)
  }

  /** Whatever a page's summary shows, its listing shows too. */
  lemma SummaryRuleIsNarrower(u: UserId, p: Page, bucket: Bucket)
    ensures CanSeePage(Some(u), p, bucket) ==> CanReadPage(u, p, bucket)
    ensures CanReadPage(u, p, bucket) && u !in bucket.readers ==> CanSeePage(Some(u), p, bucket)
  {
  }
}
