/** What a handler sends back: a status code, the `message` text, the JSON
    body's data, and what happens to the `token` cookie. */
module Http {
  import opened Common
  import opened Schema

  /** The claims signed into a session token at login. */
  datatype Claims = Claims(id: Id, username: string, role: Role)

  /** The cookie instruction a response carries. `expiresIn` is the value
      handed to the token signer, `maxAge` the cookie lifetime in milliseconds. */
  datatype Cookie =
    | KeepCookie
    | SetToken(claims: Claims, expiresIn: nat, maxAge: nat, httpOnly: bool)
    | ClearToken

  /** A user as the API shows it: every stored field except the password. */
  datatype Profile = Profile(
    id: Id,
    username: string,
    email: string,
    avatar: Option<string>,
    role: Role,
    createdAt: nat)

  datatype Payload =
    | NoPayload
      /** Registration's `details`: `null` for a field that was given, a
          message for a field that was missing. */
    | FieldDetails(usernameError: Option<string>, emailError: Option<string>, passwordError: Option<string>)
    | UserSummary(id: Id, username: string, email: string)
    | UserProfile(profile: Profile)
    | PostData(post: Post)
    | PostPage(data: seq<Post>, total: nat, page: nat, pages: nat)
    | CommentData(comment: Comment)
    | CommentList(comments: seq<Comment>)
    | CategoryData(category: Category)
    | CategoryList(categories: seq<Category>)

  datatype Response = Response(status: nat, message: string, payload: Payload, cookie: Cookie)

  /** A response with a message and nothing else. */
  function Reply(status: nat, message: string): Response
  {
    Response(status, message, NoPayload, KeepCookie)
  }

  function ProfileOf(u: User): Profile
  {
    Profile(u.id, u.username, u.email, u.avatar, u.role, u.createdAt)
  }
}
