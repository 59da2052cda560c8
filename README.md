# WriterCMS core, modelled in Dafny

WriterCMS is a small multi-user content management system. Users own **buckets**,
which are folders that nest through a parent link. Buckets hold **pages**, and every
page edit is kept in a numbered **revision** log. Users also upload **assets** into
an object store, under a per-user quota. Each bucket and page can be shared with a set
of readers, and a visibility flag (buckets) or public flag (pages) opens it to
everybody.

The current service is a Django REST API that authenticates users with Firebase ID
tokens. An earlier FastAPI service with its own tables, password logins and session
tokens is still in the repository.

This project models the rules of both services:

- slug allocation;
- the bucket-tree check that refuses cycles;
- the revision log and the page description that mirrors its latest revision;
- the read and write rules of the API;
- the storage quota and object keys of uploads;
- the Firebase identity mapping;
- the table operations and session checks of the earlier service.

Every table is a sequence. On the Django side a row's primary key is its position. On
the earlier service's side it is position + 1, because ids there are auto-incremented
from 1. Objects the source updates in place are classes:

- `Buckets.BucketTable`;
- `Pages.PageStore`;
- `AssetSerializer.AssetStore`;
- `FirebaseAuth.Directory`;
- `LegacyDb.Database`.

A database session that is absent is a `null` `Database`.

Foreign computations are parameters: Django's `slugify`, Firebase's `verify_id_token`,
bcrypt, the random token generator, SHA-256, `mimetypes.guess_type`, UTF-8 decoding
and the clock.

Modules, one file each:

| module | file | models |
|---|---|---|
| `Common` | common.dfy | shared helpers: `Option`, `Result`, whitespace, `str.split()`, row selection |
| `Records` | records.dfy | bucket, page, revision, comment and asset rows |
| `Slugs` | slugs.dfy | the `base`, `base-1`, `base-2` … allocation loop |
| `BucketTree` | bucket_tree.dfy | `Bucket.clean` and the parent-chain walk, with acyclicity |
| `Buckets` | buckets.dfy | `Bucket.generate_slug`, `clean`, `save` |
| `RevisionLog` | revision_log.dfy | latest revision, numbering |
| `Pages` | pages.dfy | `Page.save`, `Revisions.save`, `create_revision`, description sync |
| `Access` | access.dfy | the read predicates |
| `Permissions` | permissions.dfy | `IsOwnerOrReadOnly` |
| `Views` | views.dfy | viewset permissions, querysets, pagination, owner stamping |
| `BucketSerializer` | bucket_serializer.dfy | `can_edit`, children and page summaries |
| `PageSerializer` | page_serializer.dfy | `next`, `before`, `can_edit` |
| `AssetSerializer` | asset_serializer.dfy | quota, object key, `AssetSerializer.create` |
| `RevisionSerializer` | revision_serializer.dfy | revision content validation |
| `FirebaseAuth` | firebase_auth.dfy | bearer parsing, get-or-create, username allocation, profile sync |
| `LegacyDb` | legacy_db.dfy | tables of the earlier service |
| `LegacyUsers` | legacy_users.dfy | `app/users/crud.py` |
| `LegacyBuckets` | legacy_buckets.dfy | `app/buckets/crud.py` |
| `LegacyPages` | legacy_pages.dfy | `app/pages/crud.py` |
| `UserFunctions` | user_functions.dfy | `app/users/functions.py` |

## Model

| member | source | states |
|---|---|---|
| Slugs.Base | app/wcms/models/buckets.py:44-46 | the base is never empty; it is the slugified name whenever that is not empty |
| Slugs.Allocate | app/wcms/models/buckets.py:48-54 | the loop returns the first of `base`, `base<sep>1`, `base<sep>2`, … that is not taken |
| Slugs.CandidatesBounded | app/wcms/models/buckets.py:51-54 | the loop ends: at most as many candidates as there are taken names are rejected before a free one |
| Slugs.DecimalRoundTrip | app/wcms/models/buckets.py:53 | the counter written in decimal reads back as the counter, so the candidates are pairwise distinct |
| Slugs.SmallestFreeNonEmpty | app/wcms/models/buckets.py:44-56 | an allocated name is non-empty and free |
| Slugs.SmallestFreeIsUnique | app/wcms/models/buckets.py:48-56 | the allocation is determined: two smallest free names are the same name |
| Slugs.TakenBy | app/wcms/models/buckets.py:52 | a name is taken iff some row holds it and it is not the record's own current slug |
| Slugs.IndexOf | app/wcms/models/buckets.py:88 | the stored row with this slug, or none when no row holds it |
| Slugs.SettledIsFree | app/wcms/models/buckets.py:84-95 | a slug that `save` keeps or regenerates is non-empty and held by no other row |
| BucketTree.CleanCheck | app/wcms/models/buckets.py:58-82 | no parent passes; an owner mismatch is reported first, then a self-parent; a circular parent is reported iff the walk meets the bucket's own slug |
| BucketTree.WalkSound | app/wcms/models/buckets.py:73-82 | a walk that reports a hit has met an actual ancestor satisfying the test |
| BucketTree.WalkComplete | app/wcms/models/buckets.py:73-82 | on a ranked table with unique slugs, an ancestor satisfying the test is found, whatever slugs were already visited on the way |
| BucketTree.WalkReachesChain | app/wcms/models/buckets.py:73-82 | on an acyclic table, every row on the parent chain is reached |
| BucketTree.WalkFindsExactly | app/wcms/models/buckets.py:69-82 | on an acyclic table with unique slugs, the walk meets a row's slug iff that row is on the parent chain |
| BucketTree.ReparentKeepsAcyclic | app/wcms/models/buckets.py:64-75 | giving a bucket a parent that does not lie below it keeps the tree acyclic |
| BucketTree.CleanKeepsAcyclic | app/wcms/models/buckets.py:58-82 | a write that passes `clean` and keeps the stored slug keeps the tree acyclic |
| BucketTree.AppendKeepsAcyclic | app/wcms/models/buckets.py:97-98 | adding a new bucket under an existing parent keeps the tree acyclic |
| BucketTree.ChainShorterThanTable | app/wcms/models/buckets.py:73-82 | in a ranked table every parent chain has fewer links than the table has rows |
| BucketTree.AcyclicChainsEnd | app/wcms/models/buckets.py:73-82 | in an acyclic table every parent chain stops at a bucket without a parent |
| BucketTree.RenameHidesCycle | app/wcms/models/buckets.py:84-98 | counterexample: a rename plus a reparent under the bucket's own child passes `clean` and closes a cycle |
| BucketTree.CleanCheckById | app/wcms/models/buckets.py:58-82 | corrected `clean`: the same order of checks, with the cycle walk comparing primary keys |
| BucketTree.CleanByIdKeepsAcyclic | app/wcms/models/buckets.py:69-75 | the corrected check reports a circular parent iff the bucket lies above its new parent; every write it admits keeps the tree acyclic |
| Buckets.StoredWellFormed | app/wcms/models/buckets.py:8 | writing a row whose slug is present and held by no other row keeps slugs unique and parents resolvable |
| Buckets.BucketTable.GenerateSlug | app/wcms/models/buckets.py:42-56 | the first free candidate for the slugified name, or for "bucket"; the bucket's own slug is no collision |
| Buckets.BucketTable.Clean | app/wcms/models/buckets.py:58-82 | the loop with its visited set returns exactly `CleanCheck` |
| Buckets.BucketTable.SettleSlug | app/wcms/models/buckets.py:84-95 | the slug kept or regenerated follows the missing-or-name-changed rule; an empty slug or the bucket's own stored slug ends free of other rows; a free slug is never empty |
| Buckets.BucketTable.Save | app/wcms/models/buckets.py:84-98 | the slug is regenerated iff it is missing or the stored name differs; `clean` runs before the write; an invalid parent or a taken slug leaves the table unchanged; otherwise the row is written. Acyclicity is kept only when the slug is unchanged |
| Buckets.BucketTable.SaveById | app/wcms/models/buckets.py:84-98 | corrected `save` using `CleanCheckById`: every successful save keeps the tree acyclic |
| RevisionLog.Latest | app/wcms/models/page.py:51 | the page's revision with the highest number, or none when the page has no revision |
| RevisionLog.NextNumber | app/wcms/models/page.py:114-116 | at least 1 and above every number the page already uses |
| RevisionLog.AppendNext | app/wcms/models/page.py:155-162 | appending revision latest+1 makes it the latest and the page's content; it keeps numbers gapless and unique; other pages are untouched |
| RevisionLog.AmendLatest | app/wcms/models/page.py:144-152 | overwriting the latest revision in place keeps it the latest, with the same numbers, and makes its content the page's content |
| Pages.PageWriteKeeps | app/wcms/models/page.py:65-82 | writing a page with a free slug and its stored description keeps the tables well formed |
| Pages.RevisionWriteKeeps | app/wcms/models/page.py:112-121 | writing a revision with an unused number, then resynchronising its page's description, keeps the tables well formed |
| Pages.LatestAfterOtherUpdate | app/wcms/models/page.py:48-57 | changing another page's revision leaves a page's latest revision unchanged |
| Pages.LatestAfterOtherAppend | app/wcms/models/page.py:48-57 | adding another page's revision leaves a page's latest revision unchanged |
| Pages.PageStore.GenerateSlug | app/wcms/models/page.py:32-46 | the first free candidate for the slugified title, or for "page" |
| Pages.PageStore.SettleSlug | app/wcms/models/page.py:70-80 | the slug kept or regenerated follows the missing-or-title-changed rule; an empty slug or the page's own stored slug ends free of other rows; a free slug is never empty |
| Pages.PageStore.Save | app/wcms/models/page.py:65-82 | an owner other than the bucket's owner is refused before any slug work; the slug is regenerated iff missing or the title changed; otherwise the row is written |
| Pages.PageStore.SaveRevision | app/wcms/models/page.py:112-121 | a missing number becomes latest+1 (or 1); a number already used on the page is refused (unique together); the page's description becomes its latest revision's content |
| Pages.PageStore.CreateRevision | app/wcms/models/page.py:123-164 | a user other than the owner is refused; a length difference under 1500 overwrites the latest revision in place, otherwise revision latest+1 (or 1) is added; afterwards the description is the new content |
| Pages.PageStore.AmendRevision | app/wcms/models/page.py:142-151 | the latest revision takes the new content and time and keeps its number and position; the page then shows the new content and a gapless numbering stays gapless |
| Pages.PageStore.AppendRevision | app/wcms/models/page.py:153-163 | a revision numbered one past the page's highest (1 for the first) is added at the end; the page then shows the new content and a gapless numbering stays gapless |
| Access.SummaryRuleIsNarrower | app/wcms/serializers/bucket.py:100-105 | the bucket summary's page rule implies the page listing's rule, and the two agree unless the user is a bucket reader |
| Permissions.HasObjectPermission | app/wcms/permissions.py:8-21 | safe methods are always allowed; a write is allowed only to the `owner`, else the `user_owner`, else the object when it is the user |
| Permissions.OwnerTakesPrecedence | app/wcms/permissions.py:16-19 | with both attributes present, `owner` decides and `user_owner` is ignored |
| Permissions.WriteRules | app/wcms/permissions.py:8-21 | writes: buckets need their user owner, pages and assets their owner, a user profile the user; comments (which only have `user`) are never writable |
| Views.ContentGates | app/wcms/views.py:126-142 | every action needs authentication; update, partial update and destroy also need `IsOwnerOrReadOnly` |
| Views.UserGates | app/wcms/views.py:88-103 | creating and listing users is open to anybody; retrieving and writing a profile needs the owner check |
| Views.ContentActionRules | app/wcms/views.py:171-185 | creating needs only a logged-in user; a write action with an unsafe method needs the object's owner; other actions need only a logged-in user |
| Views.UserActionRules | app/wcms/views.py:88-103 | anyone may sign up and list users; only the user may write their own profile |
| Views.BucketListing | app/wcms/views.py:144-160 | anonymous: nothing; otherwise exactly the buckets the user owns, reads or that are visible, each listed once |
| Views.PageListing | app/wcms/views.py:187-197 | anonymous: nothing; otherwise exactly the pages the user owns or reads, pages in buckets the user reads, and public pages in visible buckets, each once |
| Views.CommentListing | app/wcms/views.py:247-262 | exactly the comments on pages the page rule lets the user see, each once |
| Views.AssetListing | app/wcms/views.py:288-298 | exactly the assets on pages the page rule lets the user see, each once |
| Views.HiddenBucketHidesPublicPage | app/wcms/views.py:195 | a public page in a bucket that is not visible is hidden from a user who is neither owner nor a page or bucket reader |
| Views.AscendingHasNoRepeats | app/wcms/views.py:159 | a listing in ascending id order has no duplicates, so it has as many entries as distinct rows |
| Views.PageSize | app/wcms/views.py:26-30 | the page size is 5; a requested size is honoured only between 1 and 5, and larger requests are capped at 5 |
| Views.PageCount | app/wcms/views.py:26-30 | at least one page, and exactly as many pages as the items need |
| Views.PageOf | app/wcms/views.py:26-30 | a page number from 1 to the page count is served with at most `size` items; any other number is "Invalid page." |
| Views.PageCountCovers | app/wcms/views.py:26-30 | the page that should hold an item is a valid page number |
| Views.EveryItemOnItsPage | app/wcms/views.py:26-30 | item `q*size + r` is the `r`-th item of page `q+1` |
| Views.CreateBucket | app/wcms/views.py:162-163 | creation succeeds iff the bucket is top-level or its parent belongs to the requesting user, and is otherwise refused as an owner mismatch with no change; on success exactly one row is appended: the input with the requester as owner and a non-empty generated slug; the tree stays acyclic |
| Views.CreatePage | app/wcms/views.py:199-200 | creation succeeds iff the requesting user owns the bucket; on success exactly one row is appended: the input with the requester as owner and a non-empty generated slug; the revisions are untouched and a refusal changes nothing |
| BucketSerializer.CanEditMatchesWriteRule | app/wcms/serializers/bucket.py:74-75 | `can_edit` is true iff the bucket write rule of `IsOwnerOrReadOnly` admits the user |
| BucketSerializer.JoinedChildren | app/wcms/serializers/bucket.py:77-95 | the children query as written: each matching child appears once per reader row of the join |
| BucketSerializer.ChildBuckets | app/wcms/serializers/bucket.py:77-95 | corrected: exactly the children the user owns or reads or that are visible (only visible ones for anonymous users), each once |
| BucketSerializer.JoinedChildrenSameRows | app/wcms/serializers/bucket.py:81-94 | the written query lists the same children as the corrected one, but a listed child with readers appears once per reader when the user owns it or it is visible |
| BucketSerializer.JoinedPages | app/wcms/serializers/bucket.py:97-110 | the pages query as written: each matching page appears once per page-reader row |
| BucketSerializer.BucketPages | app/wcms/serializers/bucket.py:97-110 | corrected: exactly the bucket's pages the user owns or reads, or that are public in a visible bucket (only the latter for anonymous users), each once |
| BucketSerializer.JoinedPagesSameRows | app/wcms/serializers/bucket.py:100-109 | the written query lists the same pages as the corrected one, but duplicates a page once per reader |
| BucketSerializer.SummaryWithinListing | app/wcms/serializers/bucket.py:100-105 | every page in a bucket's summary is also in the user's page listing |
| BucketSerializer.ChildListedOncePerReader | app/wcms/serializers/bucket.py:82-88 | counterexample: a visible child with two readers is listed twice |
| PageSerializer.CanEditMatchesWriteRule | app/wcms/serializers/page.py:111-112 | `can_edit` is true iff the page write rule of `IsOwnerOrReadOnly` admits the user |
| PageSerializer.Next | app/wcms/serializers/page.py:49-78 | a readable page of the same bucket with strictly greater `porder`, with the least such `porder`; none iff no such page exists |
| PageSerializer.Before | app/wcms/serializers/page.py:80-109 | a readable page of the same bucket with strictly smaller `porder`, with the greatest such `porder`; none iff no such page exists |
| PageSerializer.LinksBracket | app/wcms/serializers/page.py:54-99 | when both exist, before.porder < obj.porder < next.porder, and a page sharing obj's `porder` is neither |
| PageSerializer.NextThenBefore | app/wcms/serializers/page.py:49-109 | from a readable page that has the lowest id among the readable pages sharing its `porder`, `next` and then `before` lead back to it |
| PageSerializer.BeforeThenNext | app/wcms/serializers/page.py:49-109 | from a readable page that has the lowest id among the readable pages sharing its `porder`, `before` and then `next` lead back to it |
| AssetSerializer.Admits | app/wcms/serializers/asset.py:106-107 | an upload is admitted iff usage plus size is at most 524288000 bytes; reaching the limit exactly is admitted |
| AssetSerializer.TotalStorageAppend | app/wcms/serializers/asset.py:62-65 | a new asset adds its size to its owner's usage and nothing to anyone else's |
| AssetSerializer.TotalStorageRemove | app/wcms/serializers/asset.py:129-133 | deleting an asset takes its size off its owner's usage only |
| AssetSerializer.Extension | app/wcms/serializers/asset.py:41-42 | a dot followed by word characters ending the name (before a final line feed), or `.bin` |
| AssetSerializer.ExtensionOfName | app/wcms/serializers/asset.py:41-42 | a name ending in `.word` (optionally followed by a line feed) has extension `.word` |
| AssetSerializer.NoDotNoExtension | app/wcms/serializers/asset.py:41-42 | a name without a dot gets `.bin` |
| AssetSerializer.Take8 | app/wcms/serializers/asset.py:45 | the first eight characters of the digest, or all of them when it is shorter |
| AssetSerializer.ObjectKey | app/wcms/serializers/asset.py:41-46 | the key starts with the first eight hex digits and ends with the extension |
| AssetSerializer.ContentType | app/wcms/serializers/asset.py:49-51 | the guessed type, or `application/octet-stream` when there is none |
| AssetSerializer.AssetStore.Create | app/wcms/serializers/asset.py:90-126 | no file is refused first, then no owner, then a file over the quota; each refusal writes nothing; success stores the key and the file's size; every user stays within quota |
| AssetSerializer.AssetStore.Delete | app/wcms/serializers/asset.py:129-133 | the row goes, each user's usage drops by what they owned of it, and quotas stay respected |
| AssetSerializer.UploadFileAsWritten | app/wcms/views.py:300-301 | as written the viewset passes `uploaded_by`, so every upload with a file fails "Owner is required" and writes nothing |
| AssetSerializer.UploadFile | app/wcms/serializers/asset.py:97-100 | corrected: the owner is the requesting user; an upload succeeds iff a file is given and fits the user's quota, and the stored row is owned by the user with the file's size |
| RevisionSerializer.Strip | app/wcms/serializers/revision.py:32 | the result has no whitespace at either end and is a slice of the input |
| RevisionSerializer.StripEmpty | app/wcms/serializers/revision.py:32 | stripping gives the empty string iff the content is all whitespace |
| RevisionSerializer.StripIdempotent | app/wcms/serializers/revision.py:32 | stripping twice is stripping once |
| RevisionSerializer.ContentField | app/wcms/serializers/revision.py:27-29 | the character field trims the input and refuses it as blank iff it is all whitespace |
| RevisionSerializer.ValidateContent | app/wcms/serializers/revision.py:31-34 | refuses "Content cannot be empty" iff the value is all whitespace; otherwise returns it unchanged |
| RevisionSerializer.CleanContentRules | app/wcms/serializers/revision.py:25-34 | the whole field refuses iff the content is all whitespace (the field's own blank check fires first); an accepted value is the stripped input |
| FirebaseAuth.BearerToken | app/wcms/firebase_auth.py:147-150 | a token is taken only from a header of exactly two words whose first lower-cases to "bearer"; it is non-empty and free of whitespace |
| FirebaseAuth.BearerTokenRoundTrip | app/wcms/firebase_auth.py:147-150 | "Bearer" in any case, a space and a token gives back that token |
| FirebaseAuth.BearerTokenNeedsTwoWords | app/wcms/firebase_auth.py:148-149 | a header that does not split into two words gives no token |
| FirebaseAuth.BearerBytesToken | app/wcms/firebase_auth.py:184-187 | the same rule on the raw header bytes |
| FirebaseAuth.BearerBytesRoundTrip | app/wcms/firebase_auth.py:184-189 | the scheme bytes, a space and token bytes give back those bytes |
| FirebaseAuth.Holders | app/wcms/firebase_auth.py:76 | exactly the accounts carrying the uid, in id order |
| FirebaseAuth.HoldersOfUniqueUid | app/wcms/firebase_auth.py:76 | with uids unique, at most one account matches |
| FirebaseAuth.SyncProfile | app/wcms/firebase_auth.py:78-91 | a non-empty token email replaces the email; an empty first name is filled from the name and a set one is never overwritten; the "changed" flag is true iff the account changed |
| FirebaseAuth.SyncProfileSettles | app/wcms/firebase_auth.py:78-91 | syncing the same claims again changes nothing and reports no change |
| FirebaseAuth.Directory.AuthenticateToken | app/wcms/firebase_auth.py:55-126 | uninitialised or invalid token: no user and no change; several holders: no user; one holder: synced; none: a new active account whose username is the email (or the uid), made unique with `_1`, `_2`, …; on a valid table a verified token always yields the account linked to its uid; usernames and uids stay unique |
| FirebaseAuth.SyncKeepsValid | app/wcms/firebase_auth.py:78-91 | syncing keeps usernames and uids unique |
| FirebaseAuth.CreateKeepsValid | app/wcms/firebase_auth.py:94-112 | creating an account with a freshly allocated username and a new uid keeps both unique |
| FirebaseAuth.BackendAuthenticate | app/wcms/firebase_auth.py:36-43 | a missing or empty token, an uninitialised Firebase or a token that does not verify yields no user and changes nothing; on a valid table a verified token yields the account linked to its uid |
| FirebaseAuth.ProcessRequest | app/wcms/firebase_auth.py:133-165 | an authenticated request is left alone; without a well-formed bearer header, or with a token that does not verify, nothing happens; on a valid table a verified bearer token logs in the account linked to its uid |
| FirebaseAuth.AuthenticateCredentialsAsWritten | app/wcms/firebase_auth.py:196-218 | as written, a failed lookup is reported as "Firebase authentication failed.", never as "Invalid or expired Firebase ID token." |
| FirebaseAuth.AuthenticateCredentials | app/wcms/firebase_auth.py:196-218 | corrected: an uninitialised SDK or a bad token fails with "Invalid or expired Firebase ID token."; a valid token always authenticates, with the token echoed |
| FirebaseAuth.AuthenticateRequest | app/wcms/firebase_auth.py:173-194 | no or malformed header: not attempted; token bytes that are not UTF-8 fail with the invalid-characters message; a decoded token either authenticates or fails with the invalid-token message, and authenticates iff an initialised Firebase verifies it (on a valid table); success carries the decoded token |
| LegacyUsers.GetUserData | app/users/crud.py:22-27 | the first user with that name, or nothing, also without a session |
| LegacyUsers.CreateUser | app/users/crud.py:8-18 | succeeds iff there is a session and the name is free; then exactly one row is added with an empty session expiring at 0; usernames stay unique |
| LegacyUsers.UpdateUser | app/users/crud.py:32-40 | with a session the loaded row's changes are committed and it succeeds; without one nothing happens |
| LegacyBuckets.CreateBucket | app/buckets/crud.py:8-21 | succeeds iff there is a session and the user exists; then one bucket is added, owned by the user's id, under the given parent unless it is absent or 0 |
| LegacyBuckets.GetBuckets | app/buckets/crud.py:25-31 | nothing for an unknown user; otherwise exactly the ids of the user's buckets |
| LegacyBuckets.GetPrimBuckets | app/buckets/crud.py:35-41 | nothing for an unknown user; otherwise exactly the user's buckets without a parent |
| LegacyBuckets.PrimBucketsAreBuckets | app/buckets/crud.py:35-41 | the top-level buckets are among the user's buckets |
| LegacyBuckets.GetBucket | app/buckets/crud.py:44-48 | the bucket with that id, or nothing (also without a session) |
| LegacyBuckets.GetBucketBuckets | app/buckets/crud.py:50-54 | exactly the buckets whose parent is the given id; an empty list without a session |
| LegacyBuckets.GetBucketPages | app/buckets/crud.py:56-67 | one `{name: title, id}` entry per page of the bucket, in id order; empty without a session |
| LegacyPages.CreatePage | app/pages/crud.py:5-12 | with a session one page is added, with the content as its description and the bucket id as its owner; refused without one |
| LegacyPages.GetPages | app/pages/crud.py:16-20 | exactly the bucket's pages; nothing without a session |
| LegacyPages.GetPageAsWritten | app/pages/crud.py:23-26 | as written, a call without a session raises instead of answering nothing |
| LegacyPages.GetPage | app/pages/crud.py:23-26 | corrected: the page matching both the bucket and the id, or nothing, also without a session |
| LegacyPages.GetPageRaisesWithoutSession | app/pages/crud.py:23-26 | without a session the written lookup raises while its sibling lookups answer nothing; with one it agrees with the corrected lookup |
| LegacyPages.UpdatePage | app/pages/crud.py:29-37 | only the matching page's title and description change; with no match or no session nothing changes and it fails |
| UserFunctions.CreateUser | app/users/functions.py:11-15 | the password is hashed and salted, then the user is created as in the table operation |
| UserFunctions.NewUserHasNoSession | app/users/crud.py:12-13 | a fresh user has session expiry 0, so no token is valid for them at any time from the epoch on |
| UserFunctions.CreateSessionToken | app/users/functions.py:19-30 | returns the token and now + 2592000; stores both on a known user and changes nothing for an unknown one |
| UserFunctions.CheckPassword | app/users/functions.py:34-42 | succeeds iff the user exists and the password verifies; then a session is issued that passes `check_session` until it expires; otherwise (False, None) and nothing changes |
| UserFunctions.CheckSession | app/users/functions.py:48-53 | true iff the user exists, holds exactly this token, and the expiry is strictly after now |
| UserFunctions.GetId | app/users/functions.py:57-59 | for an existing user (required), the id of the row holding that name |
| UserFunctions.VerifyBucketOwnership | app/users/functions.py:62-69 | true iff the bucket exists and its owner id is the user's id |
| UserFunctions.VerifyBucketViewAccess | app/users/functions.py:72-82 | true iff the bucket exists and is visible or owned by the user |
| UserFunctions.OwnershipImpliesView | app/users/functions.py:62-82 | ownership implies view access |

## Left out

- Foreign computations are parameters with no properties assumed: Django `slugify`, Firebase `verify_id_token`, bcrypt hashing and verification (app/passwd.py), `generate_hash`, SHA-256, `mimetypes.guess_type` and UTF-8 decoding.
- The clock is an integer parameter `now`.
- The object store is not modelled: `get_creds`, `put_object`, `delete_object`, presigned URLs and app/image_tool.py. An upload's key is computed, but nothing is sent.
- The quota error's megabyte text is not modelled. `StorageLimitExceeded` carries the available bytes and the file size as integers instead.
- Tags, the tag viewset, the comment and user serializers, admin, URL routing, the FastAPI routers, management commands and browser code carry no rules modelled here.
- The read-only fields of the revision serializer are field declarations with no behaviour and are not modelled.
- The older app/wcms/serializers.py is not part of this model; the serializers package shadows it.
- Transactions and concurrent writers are not modelled. In particular, two revision writers racing for the same number are not.
- Deletes cascade in the source. Only asset deletion is modelled.
- Page summaries and page listings come out in primary-key order. The `Meta` ordering by bucket, `porder` and primary key is not modelled.
- Views.CommentListing: comments come out in primary-key order. The `Meta` ordering by page, then primary key, is not modelled; it decides which paginated page a comment lands on.
- Views.AssetListing: assets come out in primary-key order. The `Meta` ordering by page, then file name, is not modelled; it decides which paginated page an asset lands on.
- AssetSerializer.AssetStore.Delete: the row is removed from the sequence, so every later asset's position, and with it its primary key, moves down by one. Django keeps the other rows' keys.
- The asset record is assumed to carry `owner` and `can_share`, as the asset serializer and the quota query use them. app/wcms/models/assets.py declares only `file_name`, `size` and `page`. The page an asset belongs to is a parameter of AssetSerializer.AssetStore.Create, since the serializer never supplies one. Permissions.WriteRules ("assets need their owner") and the `uploaded_by` finding rest on this assumption.
- Views.PageOf: DRF's `last` page string and page strings that are not integers are not modelled; the page number is an integer.
- RevisionSerializer.ContentField: DRF's `CharField` also refuses values holding a NUL character. That validator is not modelled.
- The `try`/`except` around the neighbour lookups is not modelled: nothing in the model can fail there.
- The middleware's setting of `user.backend` is not modelled.
- PageSerializer.Next: among several pages with the same least `porder`, the lowest primary key is returned. The source leaves the order among them to the database. PageSerializer.Before has the same limitation.
- AssetSerializer.Extension: `\w` is taken as ASCII letters, digits and underscore. Python's `\w` also matches other Unicode letters and digits.
- FirebaseAuth.BearerToken: lower-casing is ASCII-only. That gives the same answer as `str.lower()` when comparing with "bearer".
- UserFunctions.CreateSessionToken: the expiry is whole seconds. `time.time()` returns a float.
- The `firebase_uid` account field is assumed to exist. `_authenticate_token` and the cleanup command use it, but app/wcms/models/user.py does not declare it.
- The earlier service's schema file (app/database/models.py) and request models (app/fmodels.py) do not match what its CRUD code writes. The model follows the CRUD code. The optional parent of `create_bucket` (`bucket_id1`) is an `Option<int>` in which `0` means none, and the visibility default is a parameter.
- Page.save's owner check skips a page with no bucket or no owner. Every modelled page has both, so that branch is not modelled.
- RevisionSerializer.CleanContentRules: accepted content comes out stripped. DRF's `CharField` trims whitespace and refuses blank input before `validate_content` runs. `validate_content` on its own (`ValidateContent`) returns its input unchanged.

## Findings

| source | as written | input that shows it | evidently intended | confidence | as-written member | corrected member |
|---|---|---|---|---|---|---|
| app/wcms/models/buckets.py:84-98 | `save` regenerates the slug of a renamed bucket before `clean` walks the parent chain, and the stored copy of the bucket on that chain still has the old slug | buckets a (top) and c (child of a); rename a to "B" and move it under c in one save | refuse the reparent as circular | high, not executed | BucketTree.RenameHidesCycle | Buckets.BucketTable.SaveById |
| app/wcms/serializers/bucket.py:77-110 | the `readers=user` clause inside an OR joins the readers table without `.distinct()`, so a child or page is listed once per reader row | a visible child bucket with readers {2, 3}, listed for user 4 | each child and page listed once, as the viewsets do with `.distinct()` | high, not executed | BucketSerializer.ChildListedOncePerReader | BucketSerializer.ChildBuckets |
| app/wcms/views.py:300-301 | `perform_create` passes `uploaded_by`, but `AssetSerializer.create` reads `owner`, which is read-only and never in the input | any upload with a file | the owner is the requesting user | high, not executed | AssetSerializer.UploadFileAsWritten | AssetSerializer.UploadFile |
| app/wcms/firebase_auth.py:200-218 | the `AuthenticationFailed` raised for a missing user is caught by the final `except Exception` and replaced | any token the backend rejects | "Invalid or expired Firebase ID token." | high, not executed | FirebaseAuth.AuthenticateCredentialsAsWritten | FirebaseAuth.AuthenticateCredentials |
| app/pages/crud.py:23-26 | `target_page` is bound only when there is a session | `get_page` with a falsy session | return None, like the other lookups | high, not executed | LegacyPages.GetPageAsWritten | LegacyPages.GetPage |
