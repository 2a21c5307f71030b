/** The post handlers: create a post as the signed-in user, list posts with
    filters and pagination, fetch one post by id or slug (counting the view),
    update a post with the request body, and delete a post together with its
    comments. */
module PostController {
  import opened Common
  import opened Text
  import opened Slug
  import opened Schema
  import opened Http
  import opened Database
  import opened Gate
  import opened CommentController

  const PostTaken: Response := Reply(400, "A post with this title already exists.")

  /** The fields the post validators demand of a new post: a title that does
      not trim to empty, a non-empty content and a category. The author always
      comes from the session. */
  predicate NewPostValid(title: Option<string>, content: Option<string>, category: Option<Id>)
  {
    title.Some? && Trim(title.value) != "" && content.Some? && content.value != "" && category.Some?
  }

  /** `createPost`: a post failing validation gives 500; one whose title or
      derived slug is already stored gives 400; otherwise it is stored with
      the trimmed title, the slug derived from it, the signed-in user as
      author, no views, and the next id. */
  method CreatePost(db: Store, userId: Id, title: Option<string>, content: Option<string>,
                    category: Option<Id>, thumbnail: Option<string>) returns (r: Response)
    requires db.Valid()
    modifies db
    ensures db.Valid()
    ensures db.users == old(db.users) && db.comments == old(db.comments) && db.categories == old(db.categories)
    ensures !NewPostValid(title, content, category) ==>
      r == Reply(500, "Server error while creating post") && db.posts == old(db.posts) && db.clock == old(db.clock)
    ensures NewPostValid(title, content, category) &&
            TitleOrSlugTaken(old(db.posts), -1, Trim(title.value), Slugify(Trim(title.value))) ==>
      r == PostTaken && db.posts == old(db.posts) && db.clock == old(db.clock)
    ensures NewPostValid(title, content, category) &&
            !TitleOrSlugTaken(old(db.posts), -1, Trim(title.value), Slugify(Trim(title.value))) ==>
      var p := Post(old(db.clock), Trim(title.value), Slugify(Trim(title.value)), content.value,
                    userId, category.value, thumbnail, 0, old(db.clock));
      && db.posts == old(db.posts) + [p]
      && db.clock == old(db.clock) + 1
      && r == Response(201, "Post created successfully", PostData(p), KeepCookie)
  {
    var built := BuildPost(userId, title, content, category, thumbnail, db.clock);
    if built.None? {
      return Reply(500, "Server error while creating post");
    }
    r := SavePost(db, built.value);
  }

  /** `new Post({...})` with the signed-in user as author, and the part of
      its save that runs before the write: the validators, then the pre-save
      hook. No record when a validator fails; otherwise the record the write
      stores. */
  method BuildPost(userId: Id, title: Option<string>, content: Option<string>, category: Option<Id>,
                   thumbnail: Option<string>, id: Id) returns (p: Option<Post>)
    ensures p.None? <==> !NewPostValid(title, content, category)
    ensures p.Some? ==>
      && PostWellFormed(p.value)
      && p.value == Post(id, Trim(title.value), Slugify(Trim(title.value)), content.value,
                         userId, category.value, thumbnail, 0, id)
  {
    var doc := new PostDoc(title, content, category, thumbnail, Some(userId));
    if !doc.RequiredPresent() {
      return None;
    }
    doc.PreSave();
    p := Some(doc.Stored(id, id));
  }

  /** The write of a post that passed the validators: the unique title and
      slug indexes refuse a clash with 400; otherwise the post is stored and
      answered with 201. */
  method SavePost(db: Store, p: Post) returns (r: Response)
    requires db.Valid() && p.id == db.clock && p.createdAt == db.clock && PostWellFormed(p)
    modifies db
    ensures db.Valid()
    ensures db.users == old(db.users) && db.comments == old(db.comments) && db.categories == old(db.categories)
    ensures TitleOrSlugTaken(old(db.posts), -1, p.title, p.slug) ==>
      r == PostTaken && db.posts == old(db.posts) && db.clock == old(db.clock)
    ensures !TitleOrSlugTaken(old(db.posts), -1, p.title, p.slug) ==>
      && db.posts == old(db.posts) + [p]
      && db.clock == old(db.clock) + 1
      && r == Response(201, "Post created successfully", PostData(p), KeepCookie)
  {
    if TitleOrSlugTaken(db.posts, -1, p.title, p.slug) {
      return PostTaken;
    }
    db.InsertPost(p);
    r := Response(201, "Post created successfully", PostData(p), KeepCookie);
  }

  // Listing

  const DefaultLimit: nat := 10
  const DefaultPage: nat := 1

  /** The query parameters of `getPosts`. */
  datatype PostQuery = PostQuery(search: Option<string>, category: Option<Id>, author: Option<Id>)

  /** The conjuncts `getPosts` puts in its query, each only when its parameter
      is present. `matches` stands for the text index's `$search`. */
  predicate Selected(p: Post, q: PostQuery, matches: (Post, string) -> bool)
  {
    && (Truthy(q.search) ==> matches(p, q.search.value))
    && (q.category.Some? ==> p.category == q.category.value)
    && (q.author.Some? ==> p.author == q.author.value)
  }

  /** The posts the query selects, newest first. */
  function NewestFirst(posts: seq<Post>, q: PostQuery, matches: (Post, string) -> bool): (r: seq<Post>)
    ensures forall i :: 0 <= i < |r| ==> r[i] in posts && Selected(r[i], q, matches)
    ensures forall p :: p in posts && Selected(p, q, matches) ==> p in r
    ensures Pairwise(posts, PostBefore) ==>
      forall i, j :: 0 <= i < j < |r| ==> r[j].createdAt < r[i].createdAt
  {
    var keep := (p: Post) => Selected(p, q, matches);
    FilterKeepsPairwise(posts, keep, PostBefore);
    Reverse(Filter(posts, keep))
  }

  /** The number of documents `.skip` passes over. */
  function Skip(page: nat, limit: nat): nat
    requires page >= 1
  {
    (page - 1) * limit
  }

  /** `Math.ceil(total / limit)`: the fewest pages of `limit` items that hold
      `total` items. */
  function PageCount(total: nat, limit: nat): (pages: nat)
    requires limit >= 1
    ensures pages * limit >= total
    ensures pages > 0 ==> (pages - 1) * limit < total
    ensures pages == 0 <==> total == 0
  {
    var pages := (total + limit - 1) / limit;
    var rest := (total + limit - 1) % limit;
    assert pages * limit + rest == total + limit - 1;
    assert (pages - 1) * limit == pages * limit - limit;
    pages
  }

  /** `.skip((page - 1) * limit).limit(limit)`: the window of at most `limit`
      items that starts after the skipped ones. */
  function PageOf(items: seq<Post>, page: nat, limit: nat): (r: seq<Post>)
    requires page >= 1 && limit >= 1
    ensures |r| <= limit
    ensures Skip(page, limit) >= |items| ==> r == []
    ensures Skip(page, limit) < |items| ==> |r| == Min(limit, |items| - Skip(page, limit))
    ensures forall i :: 0 <= i < |r| ==> Skip(page, limit) + i < |items| && r[i] == items[Skip(page, limit) + i]
  {
    var skip := Skip(page, limit);
    if skip >= |items| then [] else items[skip..skip + Min(limit, |items| - skip)]
  }

  function Min(a: nat, b: nat): nat
  {
    if a <= b then a else b
  }

  /** `getPosts`: the selected posts newest first, the requested page of them,
      their total count and the number of pages. A missing `page` is 1 and a
      missing `limit` is 10. */
  function ListPosts(posts: seq<Post>, q: PostQuery, page: Option<nat>, limit: Option<nat>,
                     matches: (Post, string) -> bool): (r: Response)
    requires page.None? || page.value >= 1
    requires limit.None? || limit.value >= 1
    ensures r.status == 200 && r.payload.PostPage?
    ensures var lim := if limit.Some? then limit.value else DefaultLimit;
      var all := NewestFirst(posts, q, matches);
      && |r.payload.data| <= lim
      && r.payload.total == |all|
      && r.payload.pages == PageCount(|all|, lim)
      && r.payload.page == (if page.Some? then page.value else DefaultPage)
      && r.payload.data == PageOf(all, r.payload.page, lim)
  {
    var pg := if page.Some? then page.value else DefaultPage;
    var lim := if limit.Some? then limit.value else DefaultLimit;
    var all := NewestFirst(posts, q, matches);
    Response(200, "Posts retrieved successfully",
             PostPage(PageOf(all, pg, lim), |all|, pg, PageCount(|all|, lim)), KeepCookie)
  }

  /** Every selected item appears on exactly the page its rank puts it on, and
      that page is within the reported page count: walking the pages from 1 to
      `pages` visits every item. */
  lemma {:induction false} EveryItemOnItsPage(items: seq<Post>, limit: nat, k: nat)
    requires limit >= 1 && k < |items|
    ensures 1 <= k / limit + 1 <= PageCount(|items|, limit)
    ensures k % limit < |PageOf(items, k / limit + 1, limit)|
    ensures PageOf(items, k / limit + 1, limit)[k % limit] == items[k]
  {
    var page := k / limit + 1;
    var pages := PageCount(|items|, limit);
    assert k == (k / limit) * limit + k % limit;
    assert Skip(page, limit) == (k / limit) * limit;
    if page > pages {
      MulMonotone(pages, k / limit, limit);
    }
  }

  lemma MulMonotone(a: nat, b: nat, c: nat)
    requires a <= b
    ensures a * c <= b * c
  {
  }

  /** The worked example: 25 matching posts, page 2 of 10, give the 11th to
      20th newest posts and 3 pages. */
  lemma SecondPageOfTwentyFive(items: seq<Post>)
    requires |items| == 25
    ensures PageOf(items, 2, 10) == items[10..20]
    ensures PageCount(25, 10) == 3
  {
  }

  // Fetching one post

  predicate IsHexDigit(c: char)
  {
    '0' <= c <= '9' || 'a' <= c <= 'f' || 'A' <= c <= 'F'
  }

  /** `/^[0-9a-fA-F]{24}$/`: the text of an object id. */
  predicate IsObjectIdText(s: string)
  {
    |s| == 24 && forall i :: 0 <= i < |s| ==> IsHexDigit(s[i])
  }

  function HexDigitValue(c: char): (v: nat)
    requires IsHexDigit(c)
    ensures v < 16
  {
    if '0' <= c <= '9' then c as int - '0' as int
    else if 'a' <= c <= 'f' then c as int - 'a' as int + 10
    else c as int - 'A' as int + 10
  }

  function Pow16(n: nat): (p: nat)
    ensures p >= 1
  {
    if n == 0 then 1 else 16 * Pow16(n - 1)
  }

  /** The id an object-id text denotes: its hexadecimal value, big-endian. */
  function HexValue(s: string): nat
    requires forall i :: 0 <= i < |s| ==> IsHexDigit(s[i])
  {
    if s == [] then 0 else HexValue(s[..|s| - 1]) * 16 + HexDigitValue(s[|s| - 1])
  }

  /** The value fits in as many hexadecimal digits as the text has, so the 24
      digits of an object id give an id below 16^24 (12 bytes). */
  lemma {:induction false} HexValueBelow(s: string)
    requires forall i :: 0 <= i < |s| ==> IsHexDigit(s[i])
    ensures HexValue(s) < Pow16(|s|)
  {
    if s != [] {
      var front := s[..|s| - 1];
      HexValueBelow(front);
      assert HexValue(front) * 16 <= (Pow16(|front|) - 1) * 16;
    }
  }

  /** Object-id texts are read without regard to letter case. */
  lemma {:induction false} HexValueIgnoresCase(s: string)
    requires forall i :: 0 <= i < |s| ==> IsHexDigit(s[i])
    ensures forall i :: 0 <= i < |Lower(s)| ==> IsHexDigit(Lower(s)[i])
    ensures HexValue(Lower(s)) == HexValue(s)
  {
    if s != [] {
      var front := s[..|s| - 1];
      HexValueIgnoresCase(front);
      assert Lower(s)[..|s| - 1] == Lower(front);
    }
  }

  /** The slug a lookup by slug compares with: a string filter on the slug
      path goes through that path's `lowercase` and `trim` setters. */
  function SlugFilter(identifier: string): (r: string)
    ensures |r| <= |identifier| && IsTrimmed(r)
    ensures forall i :: 0 <= i < |r| ==> !('A' <= r[i] <= 'Z')
  {
    Trim(Lower(identifier))
  }

  /** The position of the post an identifier names: by id when the identifier
      is object-id text, otherwise by slug, after the slug setters. */
  function FindPost(posts: seq<Post>, identifier: string): (r: Option<nat>)
    ensures r.Some? ==> r.value < |posts|
    ensures r.Some? && IsObjectIdText(identifier) ==> posts[r.value].id == HexValue(identifier)
    ensures r.Some? && !IsObjectIdText(identifier) ==> posts[r.value].slug == SlugFilter(identifier)
    ensures r.Some? && IsObjectIdText(identifier) ==>
      forall j :: 0 <= j < r.value ==> posts[j].id != HexValue(identifier)
    ensures r.Some? && !IsObjectIdText(identifier) ==>
      forall j :: 0 <= j < r.value ==> posts[j].slug != SlugFilter(identifier)
    ensures r.None? && IsObjectIdText(identifier) ==>
      forall i :: 0 <= i < |posts| ==> posts[i].id != HexValue(identifier)
    ensures r.None? && !IsObjectIdText(identifier) ==>
      forall i :: 0 <= i < |posts| ==> posts[i].slug != SlugFilter(identifier)
  {
    if IsObjectIdText(identifier) then
      FirstIndex(posts, (p: Post) => p.id == HexValue(identifier))
    else
      FirstIndex(posts, (p: Post) => p.slug == SlugFilter(identifier))
  }

  /** A slug passes the slug setters unchanged. */
  lemma SlugFilterFixesSlugs(slug: string)
    requires IsSlug(slug)
    ensures SlugFilter(slug) == slug
  {
    LowerFixesSlugAlphabet(slug);
    assert IsTrimmed(slug);
    TrimFixesTrimmed(slug);
  }

  /** Two lookups by slug that the setters bring to the same filter find the
      same post. */
  lemma SameFilterSamePost(posts: seq<Post>, x: string, y: string)
    requires !IsObjectIdText(x) && !IsObjectIdText(y) && SlugFilter(x) == SlugFilter(y)
    ensures FindPost(posts, x) == FindPost(posts, y)
  {
    var a, b := FindPost(posts, x), FindPost(posts, y);
    if a.Some? && b.Some? {
      if a.value < b.value {
        assert false;
      } else if b.value < a.value {
        assert false;
      }
    } else if a.Some? {
      assert false;
    } else if b.Some? {
      assert false;
    }
  }

  /** A stored slug may be requested in any letter case and with white space
      around it: the lookup reaches the same post as the slug itself. */
  lemma SlugLookupIgnoresCaseAndSpace(posts: seq<Post>, slug: string, requested: string)
    requires IsSlug(slug) && SlugFilter(requested) == slug
    requires !IsObjectIdText(slug) && !IsObjectIdText(requested)
    ensures FindPost(posts, requested) == FindPost(posts, slug)
  {
    SlugFilterFixesSlugs(slug);
    SameFilterSamePost(posts, requested, slug);
  }

  /** `getPost`: the post the identifier names has its view count raised by
      exactly one and is returned with the new count; when there is none, 404
      and nothing changes. */
  method GetPost(db: Store, identifier: string) returns (r: Response)
    requires db.Valid()
    modifies db`posts
    ensures db.Valid()
    ensures FindPost(old(db.posts), identifier).None? ==>
      r == PostNotFound && db.posts == old(db.posts)
    ensures FindPost(old(db.posts), identifier).Some? ==>
      var k := FindPost(old(db.posts), identifier).value;
      var viewed := old(db.posts)[k].(views := old(db.posts)[k].views + 1);
      && db.posts == old(db.posts)[k := viewed]
      && r == Response(200, "Post retrieved successfully", PostData(viewed), KeepCookie)
  {
    var k := FindPost(db.posts, identifier);
    if k.None? {
      return PostNotFound;
    }
    var p := db.posts[k.value];
    var viewed := p.(views := p.views + 1);
    OwnKeysNotTaken(db.posts, k.value);
    assert p in db.posts;
    db.ReplacePost(k.value, viewed);
    r := Response(200, "Post retrieved successfully", PostData(viewed), KeepCookie);
  }

  /** With unique keys, no post other than the one at `k` holds its title or
      slug, so saving that post again passes the unique indexes. */
  lemma OwnKeysNotTaken(posts: seq<Post>, k: nat)
    requires Pairwise(posts, PostBefore) && k < |posts|
    ensures !TitleOrSlugTaken(posts, k, posts[k].title, posts[k].slug)
  {
    forall i | 0 <= i < |posts| && i != k
      ensures posts[i].title != posts[k].title && posts[i].slug != posts[k].slug
    {
      if i < k {
        assert PostBefore(posts[i], posts[k]);
      } else {
        assert PostBefore(posts[k], posts[i]);
      }
    }
  }

  /** A title of 24 lower-case hexadecimal digits derives itself as slug, and
      that slug is object-id text: requested as it stands, it is looked up as
      an id, not as a slug. */
  lemma HexTitleIsItsOwnSlug(title: string)
    requires IsObjectIdText(title)
    requires forall i :: 0 <= i < |title| ==> !('A' <= title[i] <= 'F')
    ensures Slugify(title) == title
    ensures IsObjectIdText(Slugify(title))
  {
    assert Lower(title) == title;
    assert AllAlnum(title);
    SlugOfWord(title, title);
  }

  /** Whatever post has such a slug, a lookup of exactly that text goes by id
      and so does not reach the post through its slug. */
  lemma HexSlugUnreachable(posts: seq<Post>, k: nat)
    requires k < |posts| && IsObjectIdText(posts[k].slug)
    requires posts[k].id != HexValue(posts[k].slug)
    ensures FindPost(posts, posts[k].slug) != Some(k)
  {
  }

  // Updating

  /** A field of a JSON request body: left out, given as `null`, or given a
      value. */
  datatype BodyField<T> = Absent | Null | Given(value: T)

  /** The fields a request body may carry into `findByIdAndUpdate`. The body
      is not filtered: any of them may be present, and those the schema can
      hold `null` in may be `null`. */
  datatype PostPatch = PostPatch(
    title: BodyField<string>,
    slug: Option<string>,
    content: BodyField<string>,
    author: BodyField<Id>,
    category: BodyField<Id>,
    thumbnail: BodyField<string>,
    views: Option<nat>)

  /** A patch that supplies nothing. */
  const EmptyPatch: PostPatch := PostPatch(Absent, None, Absent, Absent, Absent, Absent, None)

  /** The update validators (`runValidators`): the required title, content,
      author and category may not be set to `null`, a title in the body must
      not trim to empty, and a content in the body must not be empty. */
  predicate PatchValid(patch: PostPatch)
  {
    && !patch.title.Null? && !patch.content.Null? && !patch.author.Null? && !patch.category.Null?
    && (patch.title.Given? ==> Trim(patch.title.value) != "")
    && (patch.content.Given? ==> patch.content.value != "")
  }

  /** The post after a valid update: every field present in the body replaced,
      through the schema's trim and lower-case setters, a `null` thumbnail
      cleared; every other field kept. The save hook does not run, so the slug
      is not derived again. */
  function ApplyPatch(p: Post, patch: PostPatch): Post
    requires PatchValid(patch)
  {
    p.(title := if patch.title.Given? then Trim(patch.title.value) else p.title,
       slug := if patch.slug.Some? then SlugFilter(patch.slug.value) else p.slug,
       content := if patch.content.Given? then patch.content.value else p.content,
       author := if patch.author.Given? then patch.author.value else p.author,
       category := if patch.category.Given? then patch.category.value else p.category,
       thumbnail := match patch.thumbnail
                    case Absent => p.thumbnail
                    case Null => None
                    case Given(t) => Some(t),
       views := if patch.views.Some? then patch.views.value else p.views)
  }

  /** Only the fields the body supplies change; id and creation time never do. */
  lemma PatchTouchesOnlyGivenFields(p: Post, patch: PostPatch)
    requires PatchValid(patch)
    ensures var q := ApplyPatch(p, patch);
      && q.id == p.id && q.createdAt == p.createdAt
      && (patch.title.Absent? ==> q.title == p.title)
      && (patch.slug.None? ==> q.slug == p.slug)
      && (patch.content.Absent? ==> q.content == p.content)
      && (patch.author.Absent? ==> q.author == p.author)
      && (patch.category.Absent? ==> q.category == p.category)
      && (patch.thumbnail.Absent? ==> q.thumbnail == p.thumbnail)
      && (patch.thumbnail.Null? ==> q.thumbnail.None?)
      && (patch.views.None? ==> q.views == p.views)
    ensures var q := ApplyPatch(p, patch);
      && (patch.title.Given? ==> q.title == Trim(patch.title.value))
      && (patch.slug.Some? ==> q.slug == SlugFilter(patch.slug.value))
      && (patch.content.Given? ==> q.content == patch.content.value)
      && (patch.author.Given? ==> q.author == patch.author.value)
      && (patch.category.Given? ==> q.category == patch.category.value)
      && (patch.thumbnail.Given? ==> q.thumbnail == Some(patch.thumbnail.value))
      && (patch.views.Some? ==> q.views == patch.views.value)
    ensures patch == EmptyPatch ==> ApplyPatch(p, patch) == p
  {
  }

  /** A body that sets a required field to `null` fails validation. */
  lemma NullRequiredFieldRefused(patch: PostPatch)
    requires patch.title.Null? || patch.content.Null? || patch.author.Null? || patch.category.Null?
    ensures !PatchValid(patch)
  {
  }

  /** Changing the title alone leaves the old slug in place, so after such an
      update the slug is no longer the one the new title derives. */
  lemma RetitleKeepsOldSlug(p: Post, title: string)
    requires Trim(title) != "" && Slugify(Trim(title)) != p.slug
    ensures PatchValid(EmptyPatch.(title := Given(title)))
    ensures ApplyPatch(p, EmptyPatch.(title := Given(title))).slug == p.slug
    ensures ApplyPatch(p, EmptyPatch.(title := Given(title))).slug
      != Slugify(ApplyPatch(p, EmptyPatch.(title := Given(title))).title)
  {
  }

  /** The position of the post with this id (`findById`). */
  function FindPostById(posts: seq<Post>, id: Id): (r: Option<nat>)
    ensures r.Some? ==> r.value < |posts| && posts[r.value].id == id
    ensures r.None? <==> forall i :: 0 <= i < |posts| ==> posts[i].id != id
  {
    FirstIndex(posts, (p: Post) => p.id == id)
  }

  /** `updatePost`: a body failing the update validators gives 500; an
      unknown id gives 404; a title or slug that another post already has gives
      400; otherwise the post is replaced by its patched version. */
  method UpdatePost(db: Store, id: Id, patch: PostPatch) returns (r: Response)
    requires db.Valid()
    modifies db`posts
    ensures db.Valid()
    ensures !PatchValid(patch) ==>
      r == Reply(500, "Server error while updating post") && db.posts == old(db.posts)
    ensures PatchValid(patch) && FindPostById(old(db.posts), id).None? ==>
      r == PostNotFound && db.posts == old(db.posts)
    ensures PatchValid(patch) && FindPostById(old(db.posts), id).Some? ==>
      var k := FindPostById(old(db.posts), id).value;
      var q := ApplyPatch(old(db.posts)[k], patch);
      && (TitleOrSlugTaken(old(db.posts), k, q.title, q.slug) ==>
            r == PostTaken && db.posts == old(db.posts))
      && (!TitleOrSlugTaken(old(db.posts), k, q.title, q.slug) ==>
            db.posts == old(db.posts)[k := q]
            && r == Response(200, "Post updated successfully", PostData(q), KeepCookie))
  {
    if !PatchValid(patch) {
      return Reply(500, "Server error while updating post");
    }
    var k := FindPostById(db.posts, id);
    if k.None? {
      return PostNotFound;
    }
    var q := ApplyPatch(db.posts[k.value], patch);
    if TitleOrSlugTaken(db.posts, k.value, q.title, q.slug) {
      return PostTaken;
    }
    assert db.posts[k.value] in db.posts;
    if patch.title.Given? {
      TrimFixesTrimmed(Trim(patch.title.value));
    }
    db.ReplacePost(k.value, q);
    r := Response(200, "Post updated successfully", PostData(q), KeepCookie);
  }

  // Deleting

  /** The posts other than the one with this id. */
  function PostsExcept(posts: seq<Post>, id: Id): (r: seq<Post>)
    ensures forall i :: 0 <= i < |r| ==> r[i] in posts && r[i].id != id
    ensures forall p :: p in posts && p.id != id ==> p in r
    ensures Pairwise(posts, PostBefore) ==> Pairwise(r, PostBefore)
  {
    var keep := (p: Post) => p.id != id;
    FilterKeepsPairwise(posts, keep, PostBefore);
    Filter(posts, keep)
  }

  /** `deletePost`: 404 for an unknown id; otherwise the post goes, and so
      does every comment on it. */
  method DeletePost(db: Store, id: Id) returns (r: Response)
    requires db.Valid()
    modifies db`posts, db`comments
    ensures db.Valid()
    ensures FindPostById(old(db.posts), id).None? ==>
      r == PostNotFound && db.posts == old(db.posts) && db.comments == old(db.comments)
    ensures FindPostById(old(db.posts), id).Some? ==>
      && r == Reply(200, "Post deleted successfully")
      && db.posts == PostsExcept(old(db.posts), id)
      && db.comments == CommentsNotOn(old(db.comments), id)
  {
    var k := FindPostById(db.posts, id);
    if k.None? {
      return PostNotFound;
    }
    db.KeepPosts(PostsExcept(db.posts, id));
    db.KeepComments(CommentsNotOn(db.comments, id));
    r := Reply(200, "Post deleted successfully");
  }

  /** After the cascade the deleted post has no comments left, while every
      comment on any other post is still there. */
  lemma DeleteCascades(comments: seq<Comment>, id: Id)
    ensures CommentsOf(CommentsNotOn(comments, id), id) == []
    ensures forall c :: c in comments && c.post != id ==> c in CommentsOf(CommentsNotOn(comments, id), c.post)
  {
  }
}
