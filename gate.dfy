/** The request gate that runs before the protected handlers: `verifyToken`
    authenticates the `token` cookie, and `verifyPostAuthorization` lets a
    post be changed only by its author or an administrator. Token verification
    itself is an oracle passed in by the caller. */
module Gate {
  import opened Common
  import opened Text
  import opened Schema
  import opened Http

  /** Either the request goes on with the identity the token carried, or it
      stops here with a response. */
  datatype Verdict = Proceed(userId: Id, role: Role) | Halt(response: Response)

  const NotAuthenticated: Response := Reply(401, "Access denied. Not Authenticated.")
  const InvalidToken: Response := Response(403, "Invalid or expired token", NoPayload, ClearToken)

  /** `verifyToken`: a missing or empty cookie gives 401; a token the oracle
      rejects gives 403 and clears the cookie; otherwise the request goes on
      as the token's user, with the token's role. */
  function VerifyToken(token: Option<string>, verify: string -> Option<Claims>): (v: Verdict)
    ensures !Truthy(token) ==> v == Halt(NotAuthenticated)
    ensures Truthy(token) && verify(token.value).None? ==> v == Halt(InvalidToken)
    ensures v.Proceed? <==> Truthy(token) && verify(token.value).Some?
    ensures v.Proceed? ==> v.userId == verify(token.value).value.id && v.role == verify(token.value).value.role
    ensures v.Halt? ==> v.response.status in {401, 403} && (v.response.cookie == ClearToken <==> v.response.status == 403)
  {
    if !Truthy(token) then Halt(NotAuthenticated)
    else match verify(token.value)
      case None => Halt(InvalidToken)
      case Some(claims) => Proceed(claims.id, claims.role)
  }

  const PostNotFound: Response := Reply(404, "Post not found")
  const NotPostOwner: Response := Reply(403, "You are not authorized to perform this action on this post.")

  /** The owner-or-admin rule. */
  predicate MayChangePost(p: Post, userId: Id, role: Role)
  {
    userId == p.author || role == Admin
  }

  /** `verifyPostAuthorization`: 404 when no post has the id, the next handler
      when the caller wrote the post or is an administrator, 403 otherwise. */
  function AuthorizePost(posts: seq<Post>, postId: Id, userId: Id, role: Role): (v: Option<Response>)
    ensures v == Some(PostNotFound) <==> forall i :: 0 <= i < |posts| ==> posts[i].id != postId
    ensures v.None? ==> exists i :: 0 <= i < |posts| && posts[i].id == postId && MayChangePost(posts[i], userId, role)
    ensures v == Some(NotPostOwner) ==>
      exists i :: 0 <= i < |posts| && posts[i].id == postId && !MayChangePost(posts[i], userId, role)
    ensures v.None? || v == Some(PostNotFound) || v == Some(NotPostOwner)
  {
    match FirstIndex(posts, (p: Post) => p.id == postId)
      case None => Some(PostNotFound)
      case Some(i) => if MayChangePost(posts[i], userId, role) then None else Some(NotPostOwner)
  }

  /** With unique ids the rule is exact: the gate opens for a post exactly
      when its author or an administrator asks. */
  lemma AuthorizePostExact(posts: seq<Post>, k: nat, userId: Id, role: Role)
    requires k < |posts|
    requires forall j :: 0 <= j < |posts| && j != k ==> posts[j].id != posts[k].id
    ensures AuthorizePost(posts, posts[k].id, userId, role).None? <==> MayChangePost(posts[k], userId, role)
    ensures AuthorizePost(posts, posts[k].id, userId, role) == Some(NotPostOwner) <==> !MayChangePost(posts[k], userId, role)
  {
    var v := AuthorizePost(posts, posts[k].id, userId, role);
    if v.None? {
      var i :| 0 <= i < |posts| && posts[i].id == posts[k].id && MayChangePost(posts[i], userId, role);
      assert i == k;
    }
    if v == Some(NotPostOwner) {
      var i :| 0 <= i < |posts| && posts[i].id == posts[k].id && !MayChangePost(posts[i], userId, role);
      assert i == k;
    }
  }
}
