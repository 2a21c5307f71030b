/** The document store the handlers read and change: the four collections in
    insertion order and the clock that hands out ids and creation times. The
    invariant `Valid` gathers what the schemas' unique indexes, validators and
    timestamps guarantee about every stored document; the store's own methods
    (insert one document, replace one document, keep a sub-collection) are the
    only writes, and each keeps the invariant. */
module Database {
  import opened Common
  import opened Text
  import opened Slug
  import opened Schema

  /** Two users in insertion order: created earlier, and sharing neither id,
      username nor email. */
  predicate UserBefore(u: User, v: User)
  {
    u.createdAt < v.createdAt && u.id != v.id && u.username != v.username && u.email != v.email
  }

  /** Two posts in insertion order: the title and slug indexes are unique. */
  predicate PostBefore(p: Post, q: Post)
  {
    p.createdAt < q.createdAt && p.id != q.id && p.title != q.title && p.slug != q.slug
  }

  predicate CommentBefore(c: Comment, d: Comment)
  {
    c.createdAt < d.createdAt && c.id != d.id
  }

  /** Two categories in insertion order: the name and slug indexes are unique. */
  predicate CategoryBefore(c: Category, d: Category)
  {
    c.createdAt < d.createdAt && c.id != d.id && c.name != d.name && c.slug != d.slug
  }

  /** What the post validators let through: a non-empty trimmed title and a
      non-empty content. */
  predicate PostWellFormed(p: Post)
  {
    p.title != "" && IsTrimmed(p.title) && p.content != ""
  }

  /** What `addComment` stores: content trimmed and not empty. */
  predicate CommentWellFormed(c: Comment)
  {
    c.content != "" && IsTrimmed(c.content)
  }

  /** What the category validators and hook let through: an enumerated name,
      the slug derived from it (`CategorySlugAt` shows that the listed slug is
      the derived one), and a description within the length limit. */
  predicate CategoryWellFormed(c: Category)
  {
    && (exists i :: 0 <= i < |CategoryNames| && c.name == CategoryNames[i] && c.slug == CategorySlugs[i])
    && (c.description.None? || |c.description.value| <= DescriptionMaxLength)
  }

  ghost predicate UsersValid(users: seq<User>, clock: nat)
  {
    Pairwise(users, UserBefore) && forall u :: u in users ==> u.id < clock && u.createdAt < clock
  }

  ghost predicate PostsValid(posts: seq<Post>, clock: nat)
  {
    && Pairwise(posts, PostBefore)
    && forall p :: p in posts ==> p.id < clock && p.createdAt < clock && PostWellFormed(p)
  }

  ghost predicate CommentsValid(comments: seq<Comment>, clock: nat)
  {
    && Pairwise(comments, CommentBefore)
    && forall c :: c in comments ==> c.id < clock && c.createdAt < clock && CommentWellFormed(c)
  }

  ghost predicate CategoriesValid(categories: seq<Category>, clock: nat)
  {
    && Pairwise(categories, CategoryBefore)
    && forall c :: c in categories ==> c.id < clock && c.createdAt < clock && CategoryWellFormed(c)
  }

  /** Handing out an id leaves every other collection valid. */
  lemma LaterClock(s: Store, clock: nat)
    requires s.Valid() && s.clock <= clock
    ensures UsersValid(s.users, clock) && PostsValid(s.posts, clock)
    ensures CommentsValid(s.comments, clock) && CategoriesValid(s.categories, clock)
  {
  }

  /** No stored user has this username. */
  predicate UsernameFree(users: seq<User>, username: string)
  {
    forall i :: 0 <= i < |users| ==> users[i].username != username
  }

  /** No stored user has this email. */
  predicate EmailFree(users: seq<User>, email: string)
  {
    forall i :: 0 <= i < |users| ==> users[i].email != email
  }

  /** Some post other than the one at `k` already has this title or slug: the
      unique index refuses the write (error code 11000). */
  predicate TitleOrSlugTaken(posts: seq<Post>, k: int, title: string, slug: string)
  {
    exists i :: 0 <= i < |posts| && i != k && (posts[i].title == title || posts[i].slug == slug)
  }

  /** Some category already has this name or slug. */
  predicate CategoryTaken(categories: seq<Category>, name: string, slug: string)
  {
    exists i :: 0 <= i < |categories| && (categories[i].name == name || categories[i].slug == slug)
  }

  lemma UsersAppend(users: seq<User>, u: User, clock: nat)
    requires UsersValid(users, clock)
    requires u.id == clock && u.createdAt == clock
    requires UsernameFree(users, u.username) && EmailFree(users, u.email)
    ensures UsersValid(users + [u], clock + 1)
  {
    forall j | 0 <= j < |users| ensures UserBefore(users[j], u) {
      assert users[j] in users;
    }
    AppendKeepsPairwise(users, u, UserBefore);
    forall y | y in users + [u] ensures y.id < clock + 1 && y.createdAt < clock + 1 {
      if y != u {
        assert y in users;
      }
    }
  }

  lemma PostsAppend(posts: seq<Post>, p: Post, clock: nat)
    requires PostsValid(posts, clock)
    requires p.id == clock && p.createdAt == clock && PostWellFormed(p)
    requires !TitleOrSlugTaken(posts, -1, p.title, p.slug)
    ensures PostsValid(posts + [p], clock + 1)
  {
    forall j | 0 <= j < |posts| ensures PostBefore(posts[j], p) {
      assert posts[j] in posts;
    }
    AppendKeepsPairwise(posts, p, PostBefore);
    forall y | y in posts + [p] ensures y.id < clock + 1 && y.createdAt < clock + 1 && PostWellFormed(y) {
      if y != p {
        assert y in posts;
      }
    }
  }

  lemma CommentsAppend(comments: seq<Comment>, c: Comment, clock: nat)
    requires CommentsValid(comments, clock)
    requires c.id == clock && c.createdAt == clock && CommentWellFormed(c)
    ensures CommentsValid(comments + [c], clock + 1)
  {
    forall j | 0 <= j < |comments| ensures CommentBefore(comments[j], c) {
      assert comments[j] in comments;
    }
    AppendKeepsPairwise(comments, c, CommentBefore);
    forall y | y in comments + [c] ensures y.id < clock + 1 && y.createdAt < clock + 1 && CommentWellFormed(y) {
      if y != c {
        assert y in comments;
      }
    }
  }

  lemma CategoriesAppend(categories: seq<Category>, c: Category, clock: nat)
    requires CategoriesValid(categories, clock)
    requires c.id == clock && c.createdAt == clock && CategoryWellFormed(c)
    requires !CategoryTaken(categories, c.name, c.slug)
    ensures CategoriesValid(categories + [c], clock + 1)
  {
    forall j | 0 <= j < |categories| ensures CategoryBefore(categories[j], c) {
      assert categories[j] in categories;
    }
    AppendKeepsPairwise(categories, c, CategoryBefore);
    forall y | y in categories + [c] ensures y.id < clock + 1 && y.createdAt < clock + 1 && CategoryWellFormed(y) {
      if y != c {
        assert y in categories;
      }
    }
  }

  lemma UsersReplace(users: seq<User>, k: nat, u: User, clock: nat)
    requires UsersValid(users, clock) && k < |users|
    requires u.id == users[k].id && u.createdAt == users[k].createdAt
    requires forall i :: 0 <= i < |users| && i != k ==>
      users[i].username != u.username && users[i].email != u.email
    ensures UsersValid(users[k := u], clock)
  {
    forall j | 0 <= j < k ensures UserBefore(users[j], u) {
      assert UserBefore(users[j], users[k]);
    }
    forall j | k < j < |users| ensures UserBefore(u, users[j]) {
      assert UserBefore(users[k], users[j]);
    }
    ReplaceKeepsPairwise(users, k, u, UserBefore);
    assert users[k] in users;
    forall y | y in users[k := u] ensures y.id < clock && y.createdAt < clock {
      if y != u {
        var i :| 0 <= i < |users[k := u]| && users[k := u][i] == y;
        assert y == users[i];
      }
    }
  }

  lemma PostsReplace(posts: seq<Post>, k: nat, p: Post, clock: nat)
    requires PostsValid(posts, clock) && k < |posts|
    requires p.id == posts[k].id && p.createdAt == posts[k].createdAt && PostWellFormed(p)
    requires !TitleOrSlugTaken(posts, k, p.title, p.slug)
    ensures PostsValid(posts[k := p], clock)
  {
    forall j | 0 <= j < k ensures PostBefore(posts[j], p) {
      assert PostBefore(posts[j], posts[k]);
    }
    forall j | k < j < |posts| ensures PostBefore(p, posts[j]) {
      assert PostBefore(posts[k], posts[j]);
    }
    ReplaceKeepsPairwise(posts, k, p, PostBefore);
    assert posts[k] in posts;
    forall y | y in posts[k := p] ensures y.id < clock && y.createdAt < clock && PostWellFormed(y) {
      if y != p {
        var i :| 0 <= i < |posts[k := p]| && posts[k := p][i] == y;
        assert y == posts[i];
      }
    }
  }

  class Store {
    var users: seq<User>
    var posts: seq<Post>
    var comments: seq<Comment>
    var categories: seq<Category>
    /** The next id and creation time to hand out. */
    var clock: nat

    ghost predicate Valid()
      reads this
    {
      && UsersValid(users, clock)
      && PostsValid(posts, clock)
      && CommentsValid(comments, clock)
      && CategoriesValid(categories, clock)
    }

    /** An empty database. */
    constructor ()
      ensures Valid()
      ensures users == [] && posts == [] && comments == [] && categories == []
      ensures clock == 0
    {
      users := [];
      posts := [];
      comments := [];
      categories := [];
      clock := 0;
    }

    /** `User.create`: a new user with a fresh id and no clash on the unique
        username and email indexes. */
    method InsertUser(u: User)
      requires Valid()
      requires u.id == clock && u.createdAt == clock
      requires UsernameFree(users, u.username) && EmailFree(users, u.email)
      modifies this
      ensures Valid()
      ensures users == old(users) + [u] && clock == old(clock) + 1
      ensures posts == old(posts) && comments == old(comments) && categories == old(categories)
    {
      LaterClock(this, clock + 1);
      UsersAppend(users, u, clock);
      users := users + [u];
      clock := clock + 1;
    }

    /** `user.save()` on a loaded user: id and creation time kept, and no
        other user holds the new username or email. */
    method ReplaceUser(k: nat, u: User)
      requires Valid() && k < |users|
      requires u.id == users[k].id && u.createdAt == users[k].createdAt
      requires forall i :: 0 <= i < |users| && i != k ==>
        users[i].username != u.username && users[i].email != u.email
      modifies this`users
      ensures Valid()
      ensures users == old(users)[k := u]
    {
      UsersReplace(users, k, u, clock);
      users := users[k := u];
    }

    /** A new post: fresh id, validators passed, no clash on title or slug. */
    method InsertPost(p: Post)
      requires Valid()
      requires p.id == clock && p.createdAt == clock && PostWellFormed(p)
      requires !TitleOrSlugTaken(posts, -1, p.title, p.slug)
      modifies this
      ensures Valid()
      ensures posts == old(posts) + [p] && clock == old(clock) + 1
      ensures users == old(users) && comments == old(comments) && categories == old(categories)
    {
      LaterClock(this, clock + 1);
      PostsAppend(posts, p, clock);
      posts := posts + [p];
      clock := clock + 1;
    }

    /** An update of the post at `k`: id and creation time kept, validators
        passed, and no other post with the same title or slug. */
    method ReplacePost(k: nat, p: Post)
      requires Valid() && k < |posts|
      requires p.id == posts[k].id && p.createdAt == posts[k].createdAt && PostWellFormed(p)
      requires !TitleOrSlugTaken(posts, k, p.title, p.slug)
      modifies this`posts
      ensures Valid()
      ensures posts == old(posts)[k := p]
    {
      PostsReplace(posts, k, p, clock);
      posts := posts[k := p];
    }

    /** A `deleteMany` on posts: what is kept is a sub-collection in the same
        order. */
    method KeepPosts(kept: seq<Post>)
      requires Valid()
      requires forall i :: 0 <= i < |kept| ==> kept[i] in posts
      requires Pairwise(kept, PostBefore)
      modifies this`posts
      ensures Valid()
      ensures posts == kept
    {
      posts := kept;
    }

    method InsertComment(c: Comment)
      requires Valid()
      requires c.id == clock && c.createdAt == clock && CommentWellFormed(c)
      modifies this
      ensures Valid()
      ensures comments == old(comments) + [c] && clock == old(clock) + 1
      ensures users == old(users) && posts == old(posts) && categories == old(categories)
    {
      LaterClock(this, clock + 1);
      CommentsAppend(comments, c, clock);
      comments := comments + [c];
      clock := clock + 1;
    }

    /** A `deleteMany` on comments. */
    method KeepComments(kept: seq<Comment>)
      requires Valid()
      requires forall i :: 0 <= i < |kept| ==> kept[i] in comments
      requires Pairwise(kept, CommentBefore)
      modifies this`comments
      ensures Valid()
      ensures comments == kept
    {
      comments := kept;
    }

    /** A new category: fresh id, validators passed, no clash on name or slug. */
    method InsertCategory(c: Category)
      requires Valid()
      requires c.id == clock && c.createdAt == clock && CategoryWellFormed(c)
      requires !CategoryTaken(categories, c.name, c.slug)
      modifies this
      ensures Valid()
      ensures categories == old(categories) + [c] && clock == old(clock) + 1
      ensures users == old(users) && posts == old(posts) && comments == old(comments)
    {
      LaterClock(this, clock + 1);
      CategoriesAppend(categories, c, clock);
      categories := categories + [c];
      clock := clock + 1;
    }

    /** `Category.deleteMany({})`. */
    method ClearCategories()
      requires Valid()
      modifies this`categories
      ensures Valid()
      ensures categories == []
    {
      categories := [];
    }
  }
}
