/** The page table operations of the earlier service. */
module LegacyPages {

  import opened Common
  import opened LegacyDb
  import LegacyBuckets

  /** `create_page`: with a session a page is added to bucket `bucketId` with the given
      title and the content as its description; the bucket is not looked up. */
  method CreatePage(db: Database?, title: string, content: string, bucketId: int) returns (ok: bool)
    modifies db
    ensures ok <==> db != null
    ensures ok ==> db.pages == old(db.pages) + [Page(title, content, bucketId)]
    ensures db != null ==> db.users == old(db.users) && db.buckets == old(db.buckets)
  {
    if db == null {
      return false;
    }
    db.pages := db.pages + [Page(title, content, bucketId)];
    return true;
  }

  /** `get_pages`: the positions of the pages of bucket `bucketId`; nothing without a
      session. */
  function GetPages(db: Database?, bucketId: int): (r: Option<seq<nat>>)
    reads db
    ensures r.Some? <==> db != null
    ensures r.Some? ==> forall k: nat :: k in r.value <==> k < |db.pages| && db.pages[k].bucketId == bucketId
  {
    if db == null then None else Some(LegacyBuckets.PagesOf(db.pages, bucketId))
  }

  /** The page with id `pageId` when it belongs to bucket `bucketId`. */
  function Match(pages: seq<Page>, bucketId: int, pageId: int): (k: Option<nat>)
    ensures k.Some? ==> k.value < |pages| && IdOf(k.value) == pageId && pages[k.value].bucketId == bucketId
    ensures k.None? ==> forall j: nat | j < |pages| :: !(IdOf(j) == pageId && pages[j].bucketId == bucketId)
  {
    match RowOf(|pages|, pageId)
    case Some(k) => if pages[k].bucketId == bucketId then Some(k) else None
    case None => None
  }

  /** `get_page` as written: the lookup result is only bound when there is a session, so
      without one the return raises (`UnboundLocalError`) instead of answering nothing. */
  function GetPageAsWritten(db: Database?, bucketId: int, pageId: int): (r: Result<Option<nat>, string>)
    reads db
    ensures db == null ==> r == Failure("UnboundLocalError")
    ensures db != null ==> r == Success(Match(db.pages, bucketId, pageId))
  {
    if db == null then Failure("UnboundLocalError") else Success(Match(db.pages, bucketId, pageId))
  }

  /** `get_page` as intended: the matching page, or nothing (also without a session, as
      every other lookup of the service answers). */
  function GetPage(db: Database?, bucketId: int, pageId: int): (k: Option<nat>)
    reads db
    ensures db == null ==> k.None?
    ensures k.Some? ==> k.value < |db.pages| && IdOf(k.value) == pageId && db.pages[k.value].bucketId == bucketId
    ensures db != null && k.None? ==>
              forall j: nat | j < |db.pages| :: !(IdOf(j) == pageId && db.pages[j].bucketId == bucketId)
  {
    if db == null then None else Match(db.pages, bucketId, pageId)
  }

  /** Without a session the written lookup raises where the sibling lookups answer
      nothing; with one it answers what the intended lookup answers. */
  lemma GetPageRaisesWithoutSession(db: Database?, bucketId: int, pageId: int)
    ensures db == null ==> GetPageAsWritten(db, bucketId, pageId).Failure?
                           && GetPages(db, bucketId).None?
                           && LegacyBuckets.GetBucket(db, bucketId).None?
                           && GetPage(db, bucketId, pageId).None?
    ensures db != null ==> GetPageAsWritten(db, bucketId, pageId) == Success(GetPage(db, bucketId, pageId))
  {
  }

  /** `update_page`: the page with id `pageId` in bucket `bucketId` gets the new title and
      the content as its description; nothing else changes. Refused when no page matches
      or without a session. */
  method UpdatePage(db: Database?, title: string, content: string, bucketId: int, pageId: int)
    returns (ok: bool)
    modifies db
    ensures ok <==> db != null && Match(old(db.pages), bucketId, pageId).Some?
    ensures ok ==>
              var k := Match(old(db.pages), bucketId, pageId).value;
              db.pages == old(db.pages)[k := Page(title, content, bucketId)]
    ensures db != null && !ok ==> db.pages == old(db.pages)
    ensures db != null ==> db.users == old(db.users) && db.buckets == old(db.buckets)
  {
    if db == null {
      return false;
    }
    var target := Match(db.pages, bucketId, pageId);
    if target.None? {
      return false;
    }
    var k := target.value;
    db.pages := db.pages[k := db.pages[k].(title := title, description := content)];
    return true;
  }
}
