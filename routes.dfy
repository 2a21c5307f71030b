/** The protected routes as they are wired: the token gate first, for the
    update and delete of a post the owner-or-admin gate next, and only then the
    handler. A request a gate stops leaves the store exactly as it was. The
    token oracle `verify` is the same one `Gate.VerifyToken` takes. */
module Routes {
  import opened Common
  import opened Text
  import opened Slug
  import opened Schema
  import opened Http
  import opened Database
  import opened Gate
  import opened CommentController
  import opened PostController
  import opened CategoryController

  /** The identity a token carries, when it carries one. */
  predicate SignedInAs(token: Option<string>, verify: string -> Option<Claims>, userId: Id, role: Role)
  {
    VerifyToken(token, verify) == Proceed(userId, role)
  }

  /** `POST /api/posts`: `verifyToken`, then `createPost` as the token's
      user. A new post's author is that user, whatever the request says. */
  method CreatePostRoute(db: Store, token: Option<string>, verify: string -> Option<Claims>,
                         title: Option<string>, content: Option<string>, category: Option<Id>,
                         thumbnail: Option<string>) returns (r: Response)
    requires db.Valid()
    modifies db
    ensures db.Valid()
    ensures db.users == old(db.users) && db.comments == old(db.comments) && db.categories == old(db.categories)
    ensures VerifyToken(token, verify).Halt? ==>
      r == VerifyToken(token, verify).response && db.posts == old(db.posts) && db.clock == old(db.clock)
    ensures |db.posts| != |old(db.posts)| ==>
      && VerifyToken(token, verify).Proceed?
      && |db.posts| == |old(db.posts)| + 1 && db.posts[..|old(db.posts)|] == old(db.posts)
      && db.posts[|old(db.posts)|].author == VerifyToken(token, verify).userId
      && r.status == 201
    ensures forall userId, role | SignedInAs(token, verify, userId, role) ::
      && (!NewPostValid(title, content, category) ==>
            r == Reply(500, "Server error while creating post") && db.posts == old(db.posts))
      && (NewPostValid(title, content, category) &&
          TitleOrSlugTaken(old(db.posts), -1, Trim(title.value), Slugify(Trim(title.value))) ==>
            r == PostTaken && db.posts == old(db.posts))
      && (NewPostValid(title, content, category) &&
          !TitleOrSlugTaken(old(db.posts), -1, Trim(title.value), Slugify(Trim(title.value))) ==>
            var p := Post(old(db.clock), Trim(title.value), Slugify(Trim(title.value)), content.value,
                          userId, category.value, thumbnail, 0, old(db.clock));
            && db.posts == old(db.posts) + [p]
            && r == Response(201, "Post created successfully", PostData(p), KeepCookie))
  {
    var v := VerifyToken(token, verify);
    if v.Halt? {
      return v.response;
    }
    r := CreatePost(db, v.userId, title, content, category, thumbnail);
  }

  /** `PUT /api/posts/:id`: `verifyToken`, `verifyPostAuthorization`, then
      `updatePost`. The posts change only when the token's user wrote the post
      or is an administrator, and then only that post takes the patch. */
  method UpdatePostRoute(db: Store, token: Option<string>, verify: string -> Option<Claims>,
                         id: Id, patch: PostPatch) returns (r: Response)
    requires db.Valid()
    modifies db`posts
    ensures db.Valid()
    ensures VerifyToken(token, verify).Halt? ==>
      r == VerifyToken(token, verify).response && db.posts == old(db.posts)
    ensures forall userId, role | SignedInAs(token, verify, userId, role) ::
      AuthorizePost(old(db.posts), id, userId, role).Some? ==>
        r == AuthorizePost(old(db.posts), id, userId, role).value && db.posts == old(db.posts)
    ensures db.posts != old(db.posts) ==>
      && VerifyToken(token, verify).Proceed?
      && FindPostById(old(db.posts), id).Some?
      && PatchValid(patch)
      && var k := FindPostById(old(db.posts), id).value;
         && MayChangePost(old(db.posts)[k], VerifyToken(token, verify).userId, VerifyToken(token, verify).role)
         && db.posts == old(db.posts)[k := ApplyPatch(old(db.posts)[k], patch)]
         && r == Response(200, "Post updated successfully", PostData(db.posts[k]), KeepCookie)
    ensures forall userId, role | SignedInAs(token, verify, userId, role) ::
      AuthorizePost(old(db.posts), id, userId, role).None? ==>
        && FindPostById(old(db.posts), id).Some?
        && (!PatchValid(patch) ==>
              r == Reply(500, "Server error while updating post") && db.posts == old(db.posts))
        && (PatchValid(patch) ==>
              var k := FindPostById(old(db.posts), id).value;
              var q := ApplyPatch(old(db.posts)[k], patch);
              && (TitleOrSlugTaken(old(db.posts), k, q.title, q.slug) ==>
                    r == PostTaken && db.posts == old(db.posts))
              && (!TitleOrSlugTaken(old(db.posts), k, q.title, q.slug) ==>
                    db.posts == old(db.posts)[k := q]
                    && r == Response(200, "Post updated successfully", PostData(q), KeepCookie)))
  {
    var v := VerifyToken(token, verify);
    if v.Halt? {
      return v.response;
    }
    var refusal := AuthorizePost(db.posts, id, v.userId, v.role);
    if refusal.Some? {
      return refusal.value;
    }
    FindPostByIdIsTheGatesPost(db.posts, id, v.userId, v.role);
    r := UpdatePost(db, id, patch);
  }

  /** With unique ids, the post the gate let through is the one the handler
      finds. */
  lemma FindPostByIdIsTheGatesPost(posts: seq<Post>, id: Id, userId: Id, role: Role)
    requires Pairwise(posts, PostBefore)
    requires AuthorizePost(posts, id, userId, role).None?
    ensures FindPostById(posts, id).Some?
    ensures MayChangePost(posts[FindPostById(posts, id).value], userId, role)
  {
    var i :| 0 <= i < |posts| && posts[i].id == id && MayChangePost(posts[i], userId, role);
    forall j | 0 <= j < |posts| && j != i ensures posts[j].id != id {
      if j < i {
        assert PostBefore(posts[j], posts[i]);
      } else {
        assert PostBefore(posts[i], posts[j]);
      }
    }
  }

  /** `DELETE /api/posts/:id`: `verifyToken`, `verifyPostAuthorization`, then
      `deletePost`. Posts and comments change only when the token's user wrote
      the post or is an administrator; then the post and its comments go. */
  method DeletePostRoute(db: Store, token: Option<string>, verify: string -> Option<Claims>, id: Id)
    returns (r: Response)
    requires db.Valid()
    modifies db`posts, db`comments
    ensures db.Valid()
    ensures VerifyToken(token, verify).Halt? ==>
      r == VerifyToken(token, verify).response && db.posts == old(db.posts) && db.comments == old(db.comments)
    ensures forall userId, role | SignedInAs(token, verify, userId, role) ::
      && (AuthorizePost(old(db.posts), id, userId, role).Some? ==>
            r == AuthorizePost(old(db.posts), id, userId, role).value
            && db.posts == old(db.posts) && db.comments == old(db.comments))
      && (AuthorizePost(old(db.posts), id, userId, role).None? ==>
            r == Reply(200, "Post deleted successfully")
            && db.posts == PostsExcept(old(db.posts), id)
            && db.comments == CommentsNotOn(old(db.comments), id))
    ensures db.posts != old(db.posts) || db.comments != old(db.comments) ==>
      && VerifyToken(token, verify).Proceed?
      && exists i :: 0 <= i < |old(db.posts)| && old(db.posts)[i].id == id
           && MayChangePost(old(db.posts)[i], VerifyToken(token, verify).userId, VerifyToken(token, verify).role)
  {
    var v := VerifyToken(token, verify);
    if v.Halt? {
      return v.response;
    }
    var refusal := AuthorizePost(db.posts, id, v.userId, v.role);
    if refusal.Some? {
      return refusal.value;
    }
    FindPostByIdIsTheGatesPost(db.posts, id, v.userId, v.role);
    r := DeletePost(db, id);
  }

  /** `POST /api/comments`: `verifyToken`, then `addComment` as the token's
      user. A new comment's author is that user. */
  method AddCommentRoute(db: Store, token: Option<string>, verify: string -> Option<Claims>,
                         content: Option<string>, postId: Option<Id>) returns (r: Response)
    requires db.Valid()
    modifies db
    ensures db.Valid()
    ensures db.users == old(db.users) && db.posts == old(db.posts) && db.categories == old(db.categories)
    ensures VerifyToken(token, verify).Halt? ==>
      r == VerifyToken(token, verify).response && db.comments == old(db.comments) && db.clock == old(db.clock)
    ensures |db.comments| != |old(db.comments)| ==>
      && VerifyToken(token, verify).Proceed?
      && |db.comments| == |old(db.comments)| + 1 && db.comments[..|old(db.comments)|] == old(db.comments)
      && db.comments[|old(db.comments)|].author == VerifyToken(token, verify).userId
      && r.status == 201
    ensures forall userId, role | SignedInAs(token, verify, userId, role) ::
      && (!Truthy(content) || Trim(content.value) == "" ==>
            r == ContentRequired && db.comments == old(db.comments))
      && (Truthy(content) && Trim(content.value) != "" && postId.None? ==>
            r == PostIdRequired && db.comments == old(db.comments))
      && (Truthy(content) && Trim(content.value) != "" && postId.Some? ==>
            var c := Comment(old(db.clock), Trim(content.value), userId, postId.value, old(db.clock));
            && db.comments == old(db.comments) + [c]
            && r == Response(201, "Comment added successfully", CommentData(c), KeepCookie))
  {
    var v := VerifyToken(token, verify);
    if v.Halt? {
      return v.response;
    }
    r := AddComment(db, v.userId, content, postId);
  }

  /** `DELETE /api/comments/:id`: `verifyToken`, then `deleteComment`. A
      comment goes only when the token's user wrote it; the role plays no
      part. */
  method DeleteCommentRoute(db: Store, token: Option<string>, verify: string -> Option<Claims>, id: Id)
    returns (r: Response)
    requires db.Valid()
    modifies db`comments
    ensures db.Valid()
    ensures VerifyToken(token, verify).Halt? ==>
      r == VerifyToken(token, verify).response && db.comments == old(db.comments)
    ensures db.comments != old(db.comments) ==>
      && VerifyToken(token, verify).Proceed?
      && r.status == 200
      && exists i :: 0 <= i < |old(db.comments)| && old(db.comments)[i].id == id
           && old(db.comments)[i].author == VerifyToken(token, verify).userId
    ensures forall userId, role | SignedInAs(token, verify, userId, role) ::
      && (FindComment(old(db.comments), id).None? ==>
            r == CommentNotFound && db.comments == old(db.comments))
      && (FindComment(old(db.comments), id).Some? &&
          old(db.comments)[FindComment(old(db.comments), id).value].author != userId ==>
            r == NotCommentAuthor && db.comments == old(db.comments))
      && (FindComment(old(db.comments), id).Some? &&
          old(db.comments)[FindComment(old(db.comments), id).value].author == userId ==>
            r == Reply(200, "Comment deleted successfully")
            && db.comments == CommentsExcept(old(db.comments), id))
  {
    var v := VerifyToken(token, verify);
    if v.Halt? {
      return v.response;
    }
    r := DeleteComment(db, v.userId, id);
  }

  /** `POST /api/categories`: `verifyToken`, then `createCategory`. Any
      signed-in user may create a category; no role is asked for. */
  method CreateCategoryRoute(db: Store, token: Option<string>, verify: string -> Option<Claims>,
                             name: Option<string>) returns (r: Response)
    requires db.Valid()
    modifies db
    ensures db.Valid()
    ensures db.users == old(db.users) && db.posts == old(db.posts) && db.comments == old(db.comments)
    ensures VerifyToken(token, verify).Halt? ==>
      r == VerifyToken(token, verify).response && db.categories == old(db.categories) && db.clock == old(db.clock)
    ensures VerifyToken(token, verify).Proceed? && CategoryErrors(TrimmedName(name), None) != [] ==>
      r == CategoryServerError && db.categories == old(db.categories) && db.clock == old(db.clock)
    ensures VerifyToken(token, verify).Proceed? && CategoryErrors(TrimmedName(name), None) == [] ==>
      var n := Trim(name.value);
      && (CategoryTaken(old(db.categories), n, Slugify(n)) ==>
            r == CategoryExists && db.categories == old(db.categories) && db.clock == old(db.clock))
      && (!CategoryTaken(old(db.categories), n, Slugify(n)) ==>
            var c := Category(old(db.clock), n, Slugify(n), None, old(db.clock));
            && db.categories == old(db.categories) + [c]
            && db.clock == old(db.clock) + 1
            && r == Response(201, "Category created successfully", CategoryData(c), KeepCookie))
  {
    var v := VerifyToken(token, verify);
    if v.Halt? {
      return v.response;
    }
    r := CreateCategory(db, name);
  }
}
