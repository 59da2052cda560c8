/** The rows of the content tables. Every table is a sequence and a row's primary key
    is its position in it; a foreign key is the position of the referenced row. */
module Records {

  import opened Common

  /** A bucket (a folder of pages). `parent` is the enclosing bucket, if any; `owner` is
      the owning user; `visibility` makes the bucket listable by everybody. The free-text
      decoration fields (description, banner, background) and tags carry no rules and are
      not part of this model. */
  datatype Bucket = Bucket(
    slug: string,
    name: string,
    owner: UserId,
    parent: Option<nat>,
    readers: set<UserId>,
    visibility: bool)

  /** A page inside a bucket. `description` is a read-only copy of the page's latest
      revision; `porder` orders the pages of a bucket. */
  datatype Page = Page(
    slug: string,
    title: string,
    description: string,
    porder: int,
    public: bool,
    bucket: nat,
    owner: UserId,
    readers: set<UserId>)

  /** One revision of a page: `diff` holds the full content at that revision. */
  datatype Revision = Revision(page: nat, number: nat, diff: string, timestamp: int)

  /** A comment on a page; its author field is named `user`, not `owner`. */
  datatype Comment = Comment(text: string, user: UserId, page: nat)

  /** An uploaded file: `fileName` is its object-store key, `size` its length in bytes. */
  datatype Asset = Asset(fileName: string, size: nat, owner: UserId, canShare: bool, page: nat)
}
