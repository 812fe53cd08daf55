/** The rows of the four tables, the shapes the handlers select from them,
    and the JSON reply every handler sends. */
module Schema {

  datatype Option<+T> = None | Some(value: T)

  /** A row of the user table; `password` holds the bcrypt hash, never the plaintext. */
  datatype User = User(id: nat, account: string, password: string)

  datatype Post = Post(id: nat, content: string, userId: nat)

  datatype Comment = Comment(id: nat, content: string, userId: nat, postId: nat)

  /** What a like row refers to: exactly one of `postId` and `commentId` is set. */
  datatype Subject = OnPost(postId: nat) | OnComment(commentId: nat)

  /** A like row. It has no user column: a like belongs to its subject, not to a caller. */
  datatype Like = Like(id: nat, subject: Subject, isLiked: bool)

  /** The value the like table gives `isLiked` when a row is created without it. */
  const IsLikedDefault := false

  /** A post as the listing and detail queries select it: its columns and its author's account. */
  datatype PostView = PostView(id: nat, content: string, userId: nat, account: string)

  /** A comment as the listing by post selects it. */
  datatype CommentView = CommentView(id: nat, content: string, userId: nat, account: string)

  /** The parent post as the comment detail query selects it. */
  datatype PostSummary = PostSummary(content: string, userId: nat, account: string)

  /** A comment as the detail query selects it; `post` is None when the parent row is gone. */
  datatype CommentDetail = CommentDetail(
    id: nat, content: string, userId: nat, account: string, postId: nat, post: Option<PostSummary>)

  /** The payload key of a reply besides `ok` and `message`. */
  datatype Body =
    | Empty
    | TokenBody(token: string)
    | PostBody(post: Post)
    | PostViewBody(view: PostView)
    | PostsBody(posts: seq<PostView>)
    | CommentBody(comment: Comment)
    | CommentDetailBody(detail: Option<CommentDetail>)
    | CommentsBody(postId: nat, comments: seq<CommentView>)
    | LikeBody(like: Like)

  /** An HTTP reply: the status code and the JSON envelope `{ ok, message?, <payload>? }`. */
  datatype Response = Response(status: nat, ok: bool, message: string, body: Body)

  /** `res.status(status).json({ ok: false, message })`; a bare `res.json` has status 200. */
  function Fail(status: nat, message: string): Response
  {
    Response(status, false, message, Empty)
  }

  /** `res.json({ ok: true, ... })`. */
  function Ok(body: Body): Response
  {
    Response(200, true, "", body)
  }

  /** JavaScript truthiness of an optional string field: present and not empty. */
  predicate Present(s: Option<string>)
  {
    s.Some? && s.value != ""
  }
}
