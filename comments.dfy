/** The comment handlers: list the comments of a post newest first, add a
    comment as the signed-in user, and delete a comment, which only its author
    may do. */
module CommentController {
  import opened Common
  import opened Text
  import opened Schema
  import opened Http
  import opened Database

  /** The comments of one post, newest first (`find({ post }).sort({ createdAt: -1 })`). */
  function CommentsOf(comments: seq<Comment>, postId: Id): (r: seq<Comment>)
    ensures forall i :: 0 <= i < |r| ==> r[i] in comments && r[i].post == postId
    ensures forall c :: c in comments && c.post == postId ==> c in r
    ensures Pairwise(comments, CommentBefore) ==>
      forall i, j :: 0 <= i < j < |r| ==> r[j].createdAt < r[i].createdAt
  {
    var keep := (c: Comment) => c.post == postId;
    FilterKeepsPairwise(comments, keep, CommentBefore);
    Reverse(Filter(comments, keep))
  }

  /** The comments that do not belong to a post: what the cascade of a post
      deletion leaves. */
  function CommentsNotOn(comments: seq<Comment>, postId: Id): (r: seq<Comment>)
    ensures forall i :: 0 <= i < |r| ==> r[i] in comments && r[i].post != postId
    ensures forall c :: c in comments && c.post != postId ==> c in r
    ensures Pairwise(comments, CommentBefore) ==> Pairwise(r, CommentBefore)
  {
    var keep := (c: Comment) => c.post != postId;
    FilterKeepsPairwise(comments, keep, CommentBefore);
    Filter(comments, keep)
  }

  /** The comments except the one with this id. */
  function CommentsExcept(comments: seq<Comment>, id: Id): (r: seq<Comment>)
    ensures forall i :: 0 <= i < |r| ==> r[i] in comments && r[i].id != id
    ensures forall c :: c in comments && c.id != id ==> c in r
    ensures Pairwise(comments, CommentBefore) ==> Pairwise(r, CommentBefore)
  {
    var keep := (c: Comment) => c.id != id;
    FilterKeepsPairwise(comments, keep, CommentBefore);
    Filter(comments, keep)
  }

  /** The position of the comment with this id (`findById`). */
  function FindComment(comments: seq<Comment>, id: Id): (r: Option<nat>)
    ensures r.Some? ==> r.value < |comments| && comments[r.value].id == id
    ensures r.None? <==> forall i :: 0 <= i < |comments| ==> comments[i].id != id
  {
    FirstIndex(comments, (c: Comment) => c.id == id)
  }

  /** Reversing a collection kept in increasing creation order puts the
      newest first. */
  lemma ReverseIsNewestFirst(s: seq<Comment>)
    requires Pairwise(s, CommentBefore)
    ensures forall i, j :: 0 <= i < j < |Reverse(s)| ==> Reverse(s)[j].createdAt < Reverse(s)[i].createdAt
  {
  }

  const ContentRequired: Response := Reply(400, "Comment content is required")
  const PostIdRequired: Response := Reply(400, "Post ID is required")

  /** `addComment`: content that is missing or only white space is refused
      first, then a missing post id; otherwise the trimmed content is stored as
      a comment by the signed-in user on that post. Whether the post exists is
      not checked. */
  method AddComment(db: Store, userId: Id, content: Option<string>, postId: Option<Id>)
    returns (r: Response)
    requires db.Valid()
    modifies db
    ensures db.Valid()
    ensures db.users == old(db.users) && db.posts == old(db.posts) && db.categories == old(db.categories)
    ensures !Truthy(content) || Trim(content.value) == "" ==>
      r == ContentRequired && db.comments == old(db.comments) && db.clock == old(db.clock)
    ensures Truthy(content) && Trim(content.value) != "" && postId.None? ==>
      r == PostIdRequired && db.comments == old(db.comments) && db.clock == old(db.clock)
    ensures Truthy(content) && Trim(content.value) != "" && postId.Some? ==>
      var c := Comment(old(db.clock), Trim(content.value), userId, postId.value, old(db.clock));
      && db.comments == old(db.comments) + [c]
      && db.clock == old(db.clock) + 1
      && r == Response(201, "Comment added successfully", CommentData(c), KeepCookie)
  {
    if !Truthy(content) || Trim(content.value) == "" {
      return ContentRequired;
    }
    if postId.None? {
      return PostIdRequired;
    }
    var text := Trim(content.value);
    TrimIdempotent(content.value);
    var c := Comment(db.clock, text, userId, postId.value, db.clock);
    db.InsertComment(c);
    r := Response(201, "Comment added successfully", CommentData(c), KeepCookie);
  }

  const CommentNotFound: Response := Reply(404, "Comment not found")
  const NotCommentAuthor: Response := Reply(403, "You are not authorized to delete this comment")

  /** `deleteComment`: 404 for an unknown id, 403 for anyone but the comment's
      author (administrators included), and otherwise that one comment is
      removed. */
  method DeleteComment(db: Store, userId: Id, id: Id) returns (r: Response)
    requires db.Valid()
    modifies db`comments
    ensures db.Valid()
    ensures FindComment(old(db.comments), id).None? ==>
      r == CommentNotFound && db.comments == old(db.comments)
    ensures (FindComment(old(db.comments), id).Some? &&
             old(db.comments)[FindComment(old(db.comments), id).value].author != userId) ==>
      r == NotCommentAuthor && db.comments == old(db.comments)
    ensures (FindComment(old(db.comments), id).Some? &&
             old(db.comments)[FindComment(old(db.comments), id).value].author == userId) ==>
      r == Reply(200, "Comment deleted successfully") && db.comments == CommentsExcept(old(db.comments), id)
  {
    var k := FindComment(db.comments, id);
    if k.None? {
      return CommentNotFound;
    }
    if db.comments[k.value].author != userId {
      return NotCommentAuthor;
    }
    db.KeepComments(CommentsExcept(db.comments, id));
    r := Reply(200, "Comment deleted successfully");
  }

  /** In a valid store ids are unique, so a successful delete removes exactly
      one comment: the one with that id, and every other comment stays in
      order. */
  lemma {:induction false} DeleteRemovesExactlyOne(comments: seq<Comment>, k: nat)
    requires Pairwise(comments, CommentBefore) && k < |comments|
    ensures CommentsExcept(comments, comments[k].id) == comments[..k] + comments[k + 1..]
  {
    var id := comments[k].id;
    var rest := comments[1..];
    ExceptCons(comments, id);
    if k == 0 {
      forall i | 0 <= i < |rest| ensures rest[i].id != id {
        assert CommentBefore(comments[0], comments[i + 1]);
      }
      ExceptAbsent(rest, id);
      assert comments[..0] + comments[1..] == rest;
    } else {
      TailKeepsRelation(comments, CommentBefore);
      assert rest[k - 1] == comments[k];
      DeleteRemovesExactlyOne(rest, k - 1);
      assert CommentBefore(comments[0], comments[k]);
      ConsOfSplit(comments, k);
    }
  }

  lemma ConsOfSplit(s: seq<Comment>, k: nat)
    requires 0 < k < |s|
    ensures [s[0]] + (s[1..][..k - 1] + s[1..][k..]) == s[..k] + s[k + 1..]
  {
    var rest := s[1..];
    assert rest[..k - 1] == s[1..k];
    assert rest[k..] == s[k + 1..];
    assert s[..k] == [s[0]] + s[1..k];
  }

  lemma ExceptCons(s: seq<Comment>, id: Id)
    requires s != []
    ensures CommentsExcept(s, id) == (if s[0].id != id then [s[0]] else []) + CommentsExcept(s[1..], id)
  {
  }

  /** Deleting an id no comment has removes nothing. */
  lemma {:induction false} ExceptAbsent(s: seq<Comment>, id: Id)
    requires forall i :: 0 <= i < |s| ==> s[i].id != id
    ensures CommentsExcept(s, id) == s
  {
    if s != [] {
      ExceptCons(s, id);
      ExceptAbsent(s[1..], id);
      assert s == [s[0]] + s[1..];
    }
  }
}
