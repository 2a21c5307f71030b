# Blog platform: a verified model of the request handlers

This project models the server core of a small blog platform and the browser
session context that talks to it. The server keeps users, posts, comments and
categories in a document store. Its handlers register and sign in users,
create, list, fetch, update and delete posts, add and delete comments, list and
create categories, and let a user change their profile or password. Two gates
run before the protected handlers: a session-token check, and an
owner-or-administrator check for changing a post. The browser keeps the signed-in
user in a context object mirrored to local storage under `blogUser`.

The model is written in the source's own form:

- Pure rules are functions with contracts. These are slug derivation, trimming,
  the email pattern, registration's validation order, login, pagination, the
  id-or-slug lookup, the token gate and the category ordering.
- The store is a class. Its four collections are sequences in insertion order,
  and a clock hands out ids and creation times. Its invariant `Valid` gathers
  what the schemas' unique indexes, validators and timestamps guarantee.
- Every handler that writes is a module-level method that takes the store
  `db: Store` and modifies its collections. Its `ensures` gives the response and
  the new collections for each branch, in the source's order of checks.
- Documents under construction (`PostDoc`, `CategoryDoc`) are classes whose
  pre-save hook assigns the slug.
- The session context is a class with the user and the storage map as fields.

| file | module | models |
|---|---|---|
| common.dfy | Common | `Option`, first match, filter, reverse, pairwise order |
| text.dfy | Text | ECMAScript `\s`, `trim`, ASCII `toLowerCase`, truthiness of a field |
| slug.dfy | Slug | the slug expression of both pre-save hooks |
| schema.dfy | Schema | records, the 15 category names, validators, pre-save hooks, bcrypt as an ideal hash |
| http.dfy | Http | responses, payloads, cookie instructions, token claims |
| gate.dfy | Gate | `verifyToken`, `verifyPostAuthorization` |
| database.dfy | Database | the store, its invariant and its only writes |
| auth.dfy | AuthController | `registerUser`, `loginUser`, `logoutUser` |
| posts.dfy | PostController | `createPost`, `getPosts`, `getPost`, `updatePost`, `deletePost` |
| comments.dfy | CommentController | `getPostComments`, `addComment`, `deleteComment` |
| categories.dfy | CategoryController | `getCategories`, `createCategory`, start-up seeding |
| users.dfy | UserController | `updateProfile`, `changePassword` |
| routes.dfy | Routes | the protected routes: gate(s), then handler |
| session.dfy | Session | `AuthContextProvider`: initial user, `updateUser`, `logout`, storage sync |

Abstractions, each a parameter or an ideal stand-in:

- **Ids and times.** Object ids and `createdAt` are natural numbers drawn from the store's clock. Insertion order is therefore creation order, and "newest first" is the reverse of a filtered collection.
- **bcrypt.** A digest is `Bcrypt(cost, salt, key)`. The key is the password cut to its first 72 characters, because bcrypt reads no further. `Compare` accepts exactly the attempts with that key. The random salt is a parameter of the handler.
- **JWT.** Verification is an oracle `verify: string -> Option<Claims>` passed to the gate.
- **Text search.** The `$text` search is an abstract predicate `matches(post, search)`.
- **JSON.** `JSON.stringify` and `JSON.parse` on a user are the functions `encode` and `decode` of the session context.

## Model

| member | source | states |
|---|---|---|
| Text.Trim | Backend/controllers/commentcontroller.js:25 | `trim` leaves no white space at either end and never lengthens the text |
| Text.TrimIff | Backend/controllers/commentcontroller.js:25 | `trim` is characterised in both directions: `r` is the trim of `s` exactly when `r` has no white space at either end and is a slice of `s` with only white space before and after it |
| Text.TrimIdempotent | Backend/models/post.js:10 | trimming a trimmed title again changes nothing |
| Text.TrimFixesTrimmed | Backend/models/category.js:11 | a string is its own trim exactly when neither end is white space |
| Text.TrimEmptyIff | Backend/controllers/commentcontroller.js:25 | content trims to empty exactly when every character is white space |
| Text.Lower | Backend/models/post.js:53 | `toLowerCase` on ASCII: the length is kept, no upper-case ASCII letter remains, each one becomes the letter 32 code points above it, and every other character is kept |
| Slug.Slugify | Backend/models/post.js:53 | every slug uses only `a-z`, `0-9` and `-`, has no `--`, does not start or end with `-`, and keeps exactly the letters and digits of the lower-cased text, in order |
| Slug.SlugifyJoinsWords | Backend/models/post.js:53 | the slug equals the words of the lower-cased text joined by single `-`, where the words are its maximal runs of `[a-z0-9]` in order |
| Slug.CollapseJoinsWords | Backend/models/post.js:53 | replacing each run of non-`[a-z0-9]` characters by one `-` and then stripping `-` at both ends gives exactly the words of the text joined by `-` |
| Slug.Collapse | Backend/models/post.js:53 | replacing each run of characters outside `[a-z0-9]` by one `-` leaves only `a-z`, `0-9` and `-`, no `--`, no leading `-` when the text follows a replaced run, and exactly the letters and digits of the text |
| Slug.TrimLeadingDashes | Backend/models/post.js:53 | the result is a suffix of the input, starts with no `-`, and keeps the letters and digits |
| Slug.TrimTrailingDashes | Backend/models/post.js:53 | the result is a prefix of the input, ends with no `-`, and keeps the letters and digits |
| Slug.SlugifyFixesSlugs | Backend/models/post.js:53 | a string of slug shape is its own slug |
| Slug.SlugifyIdempotent | Backend/models/post.js:53 | deriving a slug from a slug returns it unchanged |
| Slug.SlugEmptyIff | Backend/models/post.js:53 | the slug is empty exactly when the lower-cased text has no ASCII letter or digit |
| Slug.SlugCollision | Backend/models/post.js:51-55 | two texts of equal length get the same slug when, position by position, their characters lower-case to the same character or both lie outside `[a-z0-9]` |
| Slug.SlugCollisionExample | Backend/models/post.js:53 | "Hello World" and "hello-world" get the same slug |
| Slug.AlnumsEmptyIff | Backend/models/post.js:53 | a text keeps no letters or digits exactly when it has none in `[a-z0-9]` |
| Slug.SlugOfWord | Backend/models/category.js:54-57 | a name whose lower-case form is one word of letters and digits is slugged to that word |
| Slug.SlugOfTwoWords | Backend/models/category.js:54-57 | two words around a separator without letters or digits are slugged to the words joined by `-` |
| Schema.BcryptKey | Backend/controllers/authcontroller.js:55 | the part of a password bcrypt hashes: the whole password up to 72 characters, otherwise exactly its first 72 |
| Schema.Hash | Backend/controllers/authcontroller.js:55 | `bcrypt.hash(password, 10)` records cost 10 and the given salt, and the digest accepts the password it was made from |
| Schema.Compare | Backend/controllers/authcontroller.js:116 | `bcrypt.compare` accepts only attempts that begin with the digest's key of at most 72 characters; for an attempt of at most 72 characters, exactly when it is the key |
| Schema.CompareAcceptsOnlyThePassword | Backend/controllers/authcontroller.js:116 | a digest accepts an attempt exactly when its first 72 characters are those of the password it was made from, whatever the salt; for passwords of at most 72 characters, exactly when it is that password |
| Schema.CompareIgnoresTail | Backend/controllers/authcontroller.js:116 | a password of 72 or more characters still matches when anything is appended to it |
| Schema.CategorySlugAt | Backend/models/category.js:13-57 | each of the 15 names derives the listed slug, for instance "Health & Fitness" derives "health-fitness" |
| Schema.SlugOfHealthAndFitness | Backend/models/category.js:54-57 | "Health & Fitness" derives "health-fitness" |
| Schema.SlugOfArtAndDesign | Backend/models/category.js:54-57 | "Art & Design" derives "art-design" |
| Schema.SlugOfPersonalDevelopment | Backend/models/category.js:54-57 | "Personal Development" derives "personal-development" |
| Schema.CategorySlugsDistinct | Backend/models/category.js:13-57 | the 15 names are pairwise distinct and so are their 15 derived slugs |
| Schema.CategoryErrors | Backend/models/category.js:7-44 | the validators pass exactly when the name is present and enumerated and any description has at most 200 characters; a non-enumerated name yields "<name> is not a valid category" |
| Schema.IsCategoryNameIff | Backend/models/category.js:12-30 | the enumeration check walked name by name accepts exactly the 15 listed names |
| Schema.PostDoc.constructor | Backend/models/post.js:7-40 | a new post document has a trimmed title, `views = 0`, the given content, category, author and thumbnail, and no slug yet |
| Schema.PostDoc.PreSave | Backend/models/post.js:51-56 | the slug is derived from the title exactly when the title was modified; otherwise it is kept |
| Schema.CategoryDoc.constructor | Backend/models/category.js:7-44 | a new category document has a trimmed name and a null description |
| Schema.CategoryDoc.PreSave | Backend/models/category.js:52-60 | the slug is derived from the name exactly when the name was modified |
| Schema.SchemaDoesNotTrimComments | Backend/models/comment.js:7-10 | content of spaces alone passes the comment schema, although it trims to empty |
| Database.Store.constructor | Backend/models/post.js:43 | an empty store is valid and its clock starts at 0 |
| Database.Store.InsertUser | Backend/controllers/authcontroller.js:58-62 | a user with a fresh id and no username or email clash is appended; the invariant holds |
| Database.Store.ReplaceUser | Backend/controllers/usercontroller.js:27 | saving a loaded user with its id kept and no clash with another user replaces it in place; the invariant holds |
| Database.Store.InsertPost | Backend/controllers/postcontroller.js:16 | a well-formed post with a fresh id and no title or slug clash is appended; the invariant holds |
| Database.Store.ReplacePost | Backend/controllers/postcontroller.js:123 | a well-formed post with its id kept and no clash with another post replaces it in place; the invariant holds |
| Database.Store.KeepPosts | Backend/controllers/postcontroller.js:151 | keeping an ordered sub-collection of the posts keeps the invariant |
| Database.Store.InsertComment | Backend/controllers/commentcontroller.js:39 | a comment with trimmed non-empty content and a fresh id is appended; the invariant holds |
| Database.Store.KeepComments | Backend/controllers/commentcontroller.js:73 | keeping an ordered sub-collection of the comments keeps the invariant |
| Database.Store.InsertCategory | Backend/server.js:74-75 | a well-formed category with a fresh id and no name or slug clash is appended; the invariant holds |
| Database.Store.ClearCategories | Backend/server.js:68 | deleting every category leaves the store valid with no categories |
| Database.UsersReplace | Backend/controllers/usercontroller.js:27 | replacing a user without a username or email clash keeps the users' uniqueness and creation order |
| Database.PostsReplace | Backend/controllers/postcontroller.js:123 | replacing a post without a title or slug clash keeps the posts' uniqueness, order and well-formedness |
| Gate.VerifyToken | Backend/middleware/verifyToken.js:3-23 | no token gives 401; a token the verifier rejects gives 403 and clears the cookie; the request goes on exactly when the token verifies, as the token's id and role |
| Gate.AuthorizePost | Backend/middleware/verifyToken.js:26-43 | 404 exactly when no post has the id; the handler runs only for the post's author or an administrator; 403 otherwise |
| Gate.AuthorizePostExact | Backend/middleware/verifyToken.js:37-43 | with unique ids the gate opens exactly when the caller wrote the post or is an administrator, and refuses with 403 exactly otherwise |
| AuthController.MatchesEmailPattern | Backend/controllers/authcontroller.js:23 | the email pattern read as written: a non-empty part, `@`, a non-empty part, `.`, a non-empty part, none holding white space or `@` |
| AuthController.IsEmailShape | Backend/controllers/authcontroller.js:23-24 | the same test as one scan: no white space, exactly one `@` not in first place, and a `.` after the character that follows it and before the last character |
| AuthController.EmailShapeMatchesPattern | Backend/controllers/authcontroller.js:23-24 | the one-scan test agrees with `^[^\s@]+@[^\s@]+\.[^\s@]+$` read as a pattern, in both directions |
| AuthController.RegistrationRefusal | Backend/controllers/authcontroller.js:11-52 | the checks run in this order, and the first failure is the answer: missing fields (with a per-field `details` entry), email shape, password length below 6, username length below 3. A clash is classified as both fields, email only, or username only; registration proceeds exactly when neither username nor email is stored |
| AuthController.Register | Backend/controllers/authcontroller.js:6-74 | a refusal changes nothing; otherwise one user is appended with the bcrypt digest, never the password, and the answer is 201 with only id, username and email |
| AuthController.DuplicateKeyAgreesWithCheck | Backend/controllers/authcontroller.js:88-93 | the capitalised duplicate-key message for `email` and `username` is the same text as the earlier check's |
| AuthController.Login | Backend/controllers/authcontroller.js:100-152 | 400 without both fields; the same 401 for an unknown username as for a wrong password; on 200 the profile has no password and the http-only cookie carries id, username and role for one week |
| AuthController.LoginAfterRegister | Backend/controllers/authcontroller.js:55-119 | a user just registered logs in with that password, and the token carries the new id |
| AuthController.LoginSucceedsIff | Backend/controllers/authcontroller.js:110-119 | with unique usernames, a stored user's login answers 200 exactly when bcrypt accepts the password, with that user's profile and a token carrying the user's id; otherwise exactly the "Invalid credentials" answer |
| AuthController.Logout | Backend/controllers/authcontroller.js:160-162 | always 200, and the token cookie is cleared |
| PostController.CreatePost | Backend/controllers/postcontroller.js:4-29 | a post failing validation gives 500; a stored title or derived slug gives 400; otherwise the post is appended with the trimmed title, its slug, the signed-in user as author and no views |
| PostController.BuildPost | Backend/controllers/postcontroller.js:6-15 | the document validates exactly when the request satisfies the post validators, and then it holds the trimmed title, the slug derived from it, the given content, category and thumbnail, the signed-in author and zero views |
| PostController.SavePost | Backend/controllers/postcontroller.js:16-26 | a title or slug already stored gives 400 with the store unchanged; otherwise exactly that post is appended and the answer is 201 |
| PostController.Selected | Backend/controllers/postcontroller.js:37-52 | the query of `getPosts`: the text search when `search` is non-empty, the category when given and the author when given, all of them together |
| PostController.NewestFirst | Backend/controllers/postcontroller.js:37-55 | exactly the posts that satisfy every present filter, strictly newest first |
| PostController.PageCount | Backend/controllers/postcontroller.js:68 | `ceil(total / limit)`: enough pages for every item, and no page fewer; zero pages exactly when there are no items |
| PostController.PageOf | Backend/controllers/postcontroller.js:34-57 | at most `limit` items, which are exactly the items after the first `(page - 1) * limit` |
| PostController.ListPosts | Backend/controllers/postcontroller.js:32-69 | defaults `page = 1`, `limit = 10`; `total` counts every selected post; `pages` is the ceiling; the data is that page of the newest-first selection |
| PostController.EveryItemOnItsPage | Backend/controllers/postcontroller.js:34-68 | the item at rank `k` is item `k mod limit` of page `k / limit + 1`, and that page is within `pages` |
| PostController.SecondPageOfTwentyFive | Backend/controllers/postcontroller.js:34-68 | 25 items, page 2, limit 10: items 11 to 20 and 3 pages |
| PostController.IsObjectIdText | Backend/controllers/postcontroller.js:83 | `/^[0-9a-fA-F]{24}$/`: exactly 24 hexadecimal digits of either case |
| PostController.HexValue | Backend/controllers/postcontroller.js:88-89 | the id that object-id text names: its big-endian hexadecimal value |
| PostController.HexValueBelow | Backend/controllers/postcontroller.js:83-89 | the value of a hexadecimal text is below 16 to the power of its length, so the 24 digits of an object id give an id of 12 bytes |
| PostController.HexValueIgnoresCase | Backend/controllers/postcontroller.js:83 | an id written in upper-case hexadecimal names the same id as in lower case |
| PostController.SlugFilter | Backend/models/post.js:13-18 | the `lowercase` and `trim` setters on a slug: the result is no longer than the text, has no white space at either end and no upper-case ASCII letter |
| PostController.FindPost | Backend/controllers/postcontroller.js:79-105 | an identifier of 24 hexadecimal digits is looked up by id; any other is lower-cased and trimmed by the slug setters and then looked up by slug; the first match is found, and none found means no post has that id or filtered slug |
| PostController.SlugFilterFixesSlugs | Backend/models/post.js:13-18 | a slug passes the `lowercase` and `trim` setters unchanged |
| PostController.SameFilterSamePost | Backend/controllers/postcontroller.js:96-104 | two non-id identifiers that the slug setters bring to the same text find the same post |
| PostController.SlugLookupIgnoresCaseAndSpace | Backend/controllers/postcontroller.js:96-104 | a stored slug requested in other letter case or with white space around it reaches the same post as the slug itself |
| PostController.GetPost | Backend/controllers/postcontroller.js:77-113 | the post the identifier names (by id, or by the filtered slug) has its views raised by exactly 1 and the answer carries the new count; when nothing is found the answer is 404 and nothing changes |
| PostController.OwnKeysNotTaken | Backend/controllers/postcontroller.js:88-101 | with unique titles and slugs, no other post holds the title or slug of the post whose views are raised, so the update passes the unique indexes |
| PostController.HexTitleIsItsOwnSlug | Backend/models/post.js:53 | a lower-case hexadecimal title of 24 digits derives itself as slug, and that slug reads as an id |
| PostController.HexSlugUnreachable | Backend/controllers/postcontroller.js:83-94 | a post whose slug is 24 hexadecimal digits, and whose id that text does not name, is not reached by requesting exactly its slug, because that text goes to the id lookup |
| PostController.PatchValid | Backend/controllers/postcontroller.js:123-126 | the update validators: no required field set to `null`, a given title that does not trim to empty, a given content that is not empty |
| PostController.ApplyPatch | Backend/controllers/postcontroller.js:123 | the stored post after `findByIdAndUpdate` with the body as update; its contract is stated by `PatchTouchesOnlyGivenFields` |
| PostController.PatchTouchesOnlyGivenFields | Backend/controllers/postcontroller.js:123 | each field the body supplies takes the supplied value, through the trim setter for the title and the slug setters for the slug; every other field is kept, never id or creation time; a `null` thumbnail clears it; an empty body changes nothing |
| PostController.NullRequiredFieldRefused | Backend/models/post.js:7-32 | a body setting the required title, content, author or category to `null` fails the update validators |
| PostController.RetitleKeepsOldSlug | Backend/controllers/postcontroller.js:123-126 | changing only the title leaves the old slug, which then differs from the slug the new title derives |
| PostController.FindPostById | Backend/middleware/verifyToken.js:30 | finds a post with the id, or reports that none has it |
| PostController.UpdatePost | Backend/controllers/postcontroller.js:121-146 | failing update validators (a required field set to `null`, a title that trims to empty, empty content) give 500, and unknown ids 404; a title or slug held by another post gives 400; otherwise only that post is replaced by its patched version |
| PostController.DeletePost | Backend/controllers/postcontroller.js:149-161 | an unknown id gives 404 and changes nothing; otherwise the post and every comment on it are removed |
| PostController.DeleteCascades | Backend/controllers/postcontroller.js:158-159 | after the cascade the deleted post has no comments, and every comment on another post remains |
| PostController.PostsExcept | Backend/controllers/postcontroller.js:151 | exactly the posts with another id, still in creation order |
| Common.FilterKeepsPairwise | Backend/controllers/postcontroller.js:158-159 | removing documents with `deleteMany` keeps every pairwise invariant of the rest, such as creation order and unique keys |
| CommentController.CommentsOf | Backend/controllers/commentcontroller.js:4-8 | exactly the comments on the post, strictly newest first |
| CommentController.CommentsNotOn | Backend/controllers/postcontroller.js:159 | exactly the comments on other posts, still in creation order |
| CommentController.CommentsExcept | Backend/controllers/commentcontroller.js:73 | exactly the comments with another id, still in creation order |
| CommentController.FindComment | Backend/controllers/commentcontroller.js:60 | finds a comment with the id, or reports that none has it |
| CommentController.AddComment | Backend/controllers/commentcontroller.js:21-49 | missing or blank content is refused before a missing post id; otherwise one comment is appended with trimmed content, the signed-in user as author and the given post, which is not checked |
| CommentController.DeleteComment | Backend/controllers/commentcontroller.js:58-75 | 404 for an unknown id; 403 for anyone but the author, administrators included, with nothing removed; otherwise that comment is removed and 200 is answered |
| CommentController.DeleteRemovesExactlyOne | Backend/controllers/commentcontroller.js:73 | with unique ids a delete removes exactly the one comment and keeps the rest in order |
| CommentController.ExceptAbsent | Backend/controllers/commentcontroller.js:73 | deleting an id no comment has removes nothing |
| CategoryController.NameLeTotal | Backend/controllers/categorycontroller.js:6 | any two names are ordered one way or the other |
| CategoryController.NameLeTransitive | Backend/controllers/categorycontroller.js:6 | the name order is transitive |
| CategoryController.InsertByName | Backend/controllers/categorycontroller.js:6 | inserting into a sorted list keeps it sorted and adds exactly that category |
| CategoryController.SortByName | Backend/controllers/categorycontroller.js:6 | the result is sorted by name and a permutation of the input |
| CategoryController.SortedByNameEverywhere | Backend/controllers/categorycontroller.js:6 | sorted neighbours mean every earlier name is at most every later one |
| CategoryController.ListCategories | Backend/controllers/categorycontroller.js:4-10 | 200 with every stored category exactly as often as stored, in ascending order of name |
| CategoryController.CategoryClashIsNameClash | Backend/controllers/categorycontroller.js:29-31 | for an enumerated name, a clash on the unique name or slug index is exactly a clash on the name |
| CategoryController.SlugNamesCategory | Backend/models/category.js:13-57 | a valid stored category carrying the slug of an enumerated name carries that name |
| CategoryController.CreateCategory | Backend/controllers/categorycontroller.js:18-34 | a name failing validation gives 500; a stored name or slug gives 400; otherwise the category is appended with the trimmed name, its derived slug and no description, and the answer is 201 |
| CategoryController.BuildCategory | Backend/controllers/categorycontroller.js:20-22 | the document validates exactly when the trimmed name passes the category validators, and then it holds that enumerated name, its derived slug and no description |
| CategoryController.SaveCategory | Backend/controllers/categorycontroller.js:22-31 | a name or slug already stored gives 400 with the store unchanged; otherwise exactly that category is appended and the answer is 201 |
| CategoryController.CategoryNameTrimmed | Backend/models/category.js:11-29 | the trim setter keeps every enumerated name |
| CategoryController.SeedCategories | Backend/server.js:44-77 | after deleting every category, each of the 15 saves succeeds; the collection holds exactly the 15 names in order, each with its derived slug and no description |
| CategoryController.SeedOne | Backend/server.js:73-76 | saving the next enumerated name appends exactly that category, answers 201, and keeps the first names seeded in order |
| CategoryController.SeededSlugsDerived | Backend/server.js:44-77 | once all 15 are seeded, every stored category is the enumerated name at its position with the slug derived from it |
| UserController.FindUser | Backend/controllers/usercontroller.js:11 | finds a user with the id, or reports that none has it |
| UserController.Patched | Backend/controllers/usercontroller.js:23-25 | only a truthy username, email or avatar is assigned; id, password, role and creation time stay as they were |
| UserController.AssignFields | Backend/controllers/usercontroller.js:23-25 | the field-by-field assignments give exactly the patched user |
| UserController.PatchedIdempotent | Backend/controllers/usercontroller.js:23-25 | sending the same update twice changes nothing the second time |
| UserController.EmptyPatchKeepsUser | Backend/controllers/usercontroller.js:23-25 | an update with no fields, or only empty ones, leaves the user as it was |
| UserController.UpdateProfile | Backend/controllers/usercontroller.js:5-40 | 404 for an unknown user; 400 "Username already taken" when a new username is held by anyone; 500 when another user holds the email; otherwise only that user is replaced, and the answer is the profile without the password |
| UserController.UsernameHeldOnlyAt | Backend/controllers/usercontroller.js:15-27 | a username that is free or already the user's own is held by no other user |
| UserController.LoginAfterRename | Backend/controllers/usercontroller.js:17-27 | after a successful update the user logs in under the stored username with the unchanged password |
| UserController.ChangePassword | Backend/controllers/usercontroller.js:44-74 | missing fields and a short new password are refused before the lookup; then 404 for an unknown user and 400 for a wrong current password, with nothing changed; otherwise only the digest becomes the hash of the new password |
| UserController.PasswordChangeSwitchesLogin | Backend/controllers/usercontroller.js:69-72 | after a change the new password logs in; the old one gets "Invalid credentials" whenever its first 72 characters differ from the new one's |
| Routes.CreatePostRoute | Backend/routes/post.route.js:18 | a stopped token changes nothing; a new post's author is always the token's user; under a verified token the handler's outcome follows: 500 on failing validators, 400 on a title or slug clash, otherwise exactly the built post with the token's user as author is appended and the answer is 201 |
| Routes.UpdatePostRoute | Backend/routes/post.route.js:19 | each gate's refusal is the answer and changes nothing; posts change only when the token's user wrote the post or is an administrator, and then only that post takes the patch; once both gates pass, the post is found and the answer is 500 on a failing patch, 400 on a title or slug clash, otherwise the post is replaced by the patched post with 200 |
| Routes.FindPostByIdIsTheGatesPost | Backend/middleware/verifyToken.js:30-38 | with unique ids, the post the gate let through is the one the handler finds |
| Routes.DeletePostRoute | Backend/routes/post.route.js:20 | each gate's refusal is the answer and changes nothing; once both gates pass, the post and its comments are removed; nothing is removed for anyone but the author or an administrator |
| Routes.AddCommentRoute | Backend/routes/comment.route.js:11 | a stopped token changes nothing; a new comment's author is always the token's user; under a verified token, missing content or a missing post id is refused with nothing added, otherwise exactly the trimmed comment by the token's user is appended with 201 |
| Routes.DeleteCommentRoute | Backend/routes/comment.route.js:12 | a comment is removed only when the token's user wrote it; under a verified token, an unknown id gives 404 and another user's comment gives 403, both changing nothing, and the author's own comment is removed with 200 |
| Routes.CreateCategoryRoute | Backend/routes/category.route.js:8 | any verified token reaches the handler, whatever its role; it then answers 500 on failing validators and 400 on a name or slug clash, changing nothing, and otherwise appends exactly one category with 201 |
| Session.InitialUser | Blog/src/context/authcontext.jsx:12-20 | no entry, or an empty one, gives no user; otherwise the parsed entry, with no user when it does not parse |
| Session.SyncStorage | Blog/src/context/authcontext.jsx:38-44 | the entry holds the serialised user when there is one and is absent otherwise; no other entry changes |
| Session.SyncIdempotent | Blog/src/context/authcontext.jsx:38-44 | running the sync twice writes nothing new |
| Session.ReloadRestoresUser | Blog/src/context/authcontext.jsx:12-44 | given that parsing undoes serialising, the initialiser reads back the user the sync stored |
| Session.AuthContext.constructor | Blog/src/context/authcontext.jsx:12-44 | mounting reads the user from storage, then syncs; storage mirrors the user |
| Session.AuthContext.UpdateUser | Blog/src/context/authcontext.jsx:22-24 | the user is replaced wholesale and storage mirrors it |
| Session.AuthContext.Logout | Blog/src/context/authcontext.jsx:26-35 | the user is cleared and the entry removed, whatever the server answered |
| Session.SessionSurvivesReload | Blog/src/context/authcontext.jsx:12-44 | after `updateUser` with a user, a freshly mounted context starts with that user |

## Left out

- **Exceptions and 500 answers of the store.** A failed connection or a cast error is left out. So are the 500 "Authorization error" of `verifyPostAuthorization` and registration's generic 500. The 500 answers that follow from the data are modelled: failed validators, and a unique-index clash on an email.
- Database.Store: each handler is one atomic step. Two concurrent requests can race between registration's existence check and its insert, or between deleting a post and deleting its comments. The model does not capture this.
- **Registration's `ValidationError` branch.** The user schema is not part of this model. It is assumed to have unique `username` and `email`, role `user` by default and no avatar. Registration's own checks come first; no other user validator is modelled.
- AuthController.Register: the store's duplicate-key answer (code 11000) is only reachable through a race, because of the check before it. `DuplicateKeyAgreesWithCheck` shows it would give the same text.
- AuthController.Login: the body key of the login answers is `msg`, not `message`. The success body is the profile itself, with `id` twice (as `id` and `_id`). The model keeps one message field and one id.
- **Password and token cryptography.** bcrypt is an ideal hash, and token verification is an oracle. Token expiry is not modelled: `jwt.sign` receives the cookie's millisecond age as `expiresIn`, which the library reads as seconds. The model records the value handed over, not its effect.
- **Text search.** `$text` with its index, stemming and scoring is the abstract `matches` predicate.
- `populate` projections of author and category are not modelled; responses carry the stored ids.
- **ObjectId casting.** Ids are natural numbers. An identifier of 24 hexadecimal digits names the id `HexValue` gives it. Malformed ids and the resulting cast errors are left out.
- PostController.ListPosts: requires `page >= 1` and `limit >= 1`. `parseInt` of malformed text, `NaN`, and a zero or negative page or limit are not modelled.
- Text.Lower: folds ASCII letters only, while `toLowerCase` also folds other scripts. String lengths count code points, while JavaScript counts UTF-16 code units.
- Slug.Slugify: because `Lower` folds ASCII only, a title whose non-ASCII letters `toLowerCase` maps into `[a-z]` slugs differently. The Kelvin sign U+212A becomes `k` in JavaScript, so the title "\u212A" slugs to "k", while the model gives the empty slug. U+0130 likewise becomes `i` followed by a combining dot. Slug.SlugEmptyIff is stated for the model's fold and inherits the same gap.
- PostController.ApplyPatch: `updatedAt` is not modelled. A body that sets `slug` or `views` to `null` is not modelled, because the model's slug and view count cannot hold `null`. The view count is a natural number, so a body that sets `views` to a negative or fractional number is not modelled either; the schema's plain `Number` type stores such a value, and `getPost` then adds 1 to it. A body that sets `_id` or `createdAt` is not modelled.
- Schema.BcryptKey: bcrypt reads the first 72 bytes of the UTF-8 encoding, and the model cuts at 72 characters. The two agree for ASCII passwords. The same cut underlies CompareAcceptsOnlyThePassword, LoginSucceedsIff and PasswordChangeSwitchesLogin.
- UserController.UpdateProfile: the user routes file is never mounted by the server, so these handlers are unreachable over HTTP. They are modelled as written, behind no gate.
- Routes.CreateCategoryRoute: the route applies only the token gate, although the handler is commented as admin-only; the model follows the route.
- The unused duplicate `authcontextprovider.jsx` is not modelled. It differs only in writing the string "null" on logout.
- UI pages, the axios wrapper, logging, server start-up and CORS are not modelled. Of server start-up only the category seeding is modelled.
- `createdAt` is the store's clock. Dates, `updatedAt` and their formatting are not modelled.

Two behaviours of the code worth noting:

- Registration checks the email shape and the password length before the username length (Backend/controllers/authcontroller.js:22-36).
- An update of a post's title does not derive a new slug, because `findByIdAndUpdate` does not run the save hook (Backend/controllers/postcontroller.js:123 and Backend/models/post.js:51-56).
