/** The object-level write rule shared by the viewsets (`IsOwnerOrReadOnly`). */
module Permissions {

  import opened Common
  import opened Records

  datatype Method = GET | HEAD | OPTIONS | POST | PUT | PATCH | DELETE

  /** The methods that only read. */
  predicate Safe(m: Method)
  {
    m == GET || m == HEAD || m == OPTIONS
  }

  /** What the rule can see of an object: the value of an `owner` attribute if it has one,
      of a `user_owner` attribute if it has one, and the user it is, if it is a user. */
  datatype Guarded = Guarded(ownerAttr: Option<UserId>, userOwnerAttr: Option<UserId>, asUser: Option<UserId>)

  function OfBucket(b: Bucket): Guarded { Guarded(None, Some(b.owner), None) }
  function OfPage(p: Page): Guarded { Guarded(Some(p.owner), None, None) }
  function OfAsset(a: Asset): Guarded { Guarded(Some(a.owner), None, None) }
  /** A comment names its author `user`: neither attribute the rule looks for. */
  function OfComment(c: Comment): Guarded { Guarded(None, None, None) }
  function OfUser(u: UserId): Guarded { Guarded(None, None, Some(u)) }

  /** `has_object_permission`: reads always pass; a write passes for the object's `owner`,
      else for its `user_owner`, else only when the object is the requesting user. An
      anonymous requester (`None`) equals no user. */
  function HasObjectPermission(m: Method, actor: Option<UserId>, obj: Guarded): (ok: bool)
    ensures Safe(m) ==> ok
    ensures ok && !Safe(m) ==> actor.Some?
    ensures ok && !Safe(m) ==> actor == obj.ownerAttr || actor == obj.userOwnerAttr || actor == obj.asUser
  {
    if Safe(m) then true
    else if obj.ownerAttr.Some? then actor.Some? && actor == obj.ownerAttr
    else if obj.userOwnerAttr.Some? then actor.Some? && actor == obj.userOwnerAttr
    else actor.Some? && actor == obj.asUser
  }

  /** An `owner` attribute decides alone: a matching `user_owner` does not help. */
  lemma OwnerTakesPrecedence(m: Method, actor: Option<UserId>, owner: UserId, userOwner: UserId)
    requires !Safe(m) && owner != userOwner
    ensures !HasObjectPermission(m, Some(userOwner), Guarded(Some(owner), Some(userOwner), None))
    ensures HasObjectPermission(m, Some(owner), Guarded(Some(owner), Some(userOwner), None))
  {
  }

  /** Writes to a bucket are for its `user_owner`, to a page or asset for its owner, to a
      user record for that user; writes to a comment are refused to everybody, its author
      included. */
  lemma WriteRules(m: Method, actor: Option<UserId>, b: Bucket, p: Page, a: Asset, c: Comment, u: UserId)
    requires !Safe(m)
    ensures HasObjectPermission(m, actor, OfBucket(b)) <==> actor == Some(b.owner)
    ensures HasObjectPermission(m, actor, OfPage(p)) <==> actor == Some(p.owner)
    ensures HasObjectPermission(m, actor, OfAsset(a)) <==> actor == Some(a.owner)
    ensures HasObjectPermission(m, actor, OfUser(u)) <==> actor == Some(u)
    ensures !HasObjectPermission(m, actor, OfComment(c))
  {
  }
}
