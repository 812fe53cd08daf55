# x-clone-express request handlers, modelled in Dafny

The service is a small social-content API: accounts register and log in and
get a signed bearer token; with that token they create posts, comment on
posts, update and delete their own posts and comments, and mark posts or
comments as liked. Every handler follows the same pattern. It checks its
inputs, looks up rows, decides, and then inserts, updates or deletes at most
one row. This project models that decision logic against an in-memory
database and proves what each handler replies and how it changes the tables.

- `schema.dfy` (`Schema`): the rows (user, post, comment, like), the shapes
  the queries select, and the reply `Response(status, ok, message, body)`.
  Express `res.json` without a status is status 200.
- `storage.dfy` (`Storage`): the `Store` class. It stands for the Prisma
  client: four tables as `map`s keyed by id and one autoincrement counter per
  table. `Valid()` holds these invariants: each row sits under its own id, and
  ids are positive and below the counter; accounts are unique; every post and
  comment has an existing author; a subject has at most one like row.
  `FindUserId` is `findUnique({ where: { account } })`.
- `keys.dfy` (`Keys`): `orderBy: { id: "desc" }`, `skip` and `take` over sets of
  ids. `Above(s, x)`, the number of ids above `x`, is the position of `x` in
  the descending listing.
- `ownership.dfy` (`Ownership`): the check that update and delete run before
  they write.
- `auth.dfy` (`Auth`): the `verifyToken` gate (on a `Request` object whose
  `account` it binds and whose `next` calls it counts) and login.
- `user_routes.dfy`, `post_routes.dfy`, `comment_routes.dfy`,
  `like_routes.dfy`: one module per route file. Handlers that write are
  module-level methods that take the `Store` as `db`. Each method's frame names only the table and counter it may
  change. Listing and get-by-id are functions over the tables, and so is login,
  which writes nothing.

jsonwebtoken and bcrypt are parameters of the handlers that use them:
`sign(account)` stands for one call of `jwt.sign({ account }, key)`; `verify(token)` is
`jwt.verify` under the same key, giving None where it throws;
`hash(password)` stands for one call of `bcrypt.hashSync(password, 10)`;
`compare` is `bcrypt.compareSync`. Request fields that may be missing are `Option`s. A
string field counts as given when it is present and not empty, which is
JavaScript truthiness. Ids and the page number are natural numbers.

Behaviour of the code worth knowing:
- The code drops the first seven characters of the `Authorization` header
  without checking that they read `Bearer ` (the scheme of section 2.1 of
  RFC 6750) (`Auth.TokenOf`, `Auth.AnyPrefixAccepted`).
- Update and delete reply "Not exist user." to an unknown caller; a missing
  row and a row owned by someone else both get "Can not access."
  (`Ownership.Refusal`, `Ownership.SameRefusal`).
- Login and registration refusals reply with status 200 and `ok: false`.
- Nothing prevents two like rows for one subject. The model keeps at most one
  as an invariant, which sequential calls preserve
  (`LikeRoutes.MarkLikedOneRow`).

## Model

| member | source | states |
|---|---|---|
| Storage.FindUserId | routes/user.ts:21-26 | the user found by account holds that account; none is found exactly when no row holds it |
| Storage.FindUserIdUnique | routes/auth.ts:25-29 | with unique accounts, the lookup by account finds the one row that holds it |
| Keys.SortedDesc | routes/post.ts:76-78 | the ids, each exactly once, strictly descending |
| Keys.SortedDescRank | routes/post.ts:76-78 | the id at index i of the descending listing has exactly i ids above it |
| Keys.PageOf | routes/post.ts:63-65 | skip/take over the descending listing: the length is min(take, n - skip), or 0 when skip >= n; the i-th id has skip + i ids above it; the ids descend |
| Ownership.Authorize | routes/post.ts:208-232 | unknown caller exactly when no user has the account; allowed exactly when the row exists and its owner's account is the caller's, and then the allowed user is the owner |
| Ownership.Refusal | routes/post.ts:214-232 | a refused mutation is a 400 with no body: "Not exist user." for an unknown caller, "Can not access." for every other refusal |
| Ownership.SameRefusal | routes/post.ts:208-232 | for a known caller, a missing row and a row owned by another user get the same reply, 400 "Can not access." |
| Auth.TokenOf | routes/auth.ts:64-71 | a token exists exactly when the header is present and longer than 7 characters; it is the non-empty text from index 7, and the header is any 7 characters followed by it |
| Auth.AnyPrefixAccepted | routes/auth.ts:64 | any seven characters before a non-empty token are accepted; "Bearer " is never checked |
| Auth.VerifyToken | routes/auth.ts:58-89 | no token: 400 "Not exist token.", request untouched, next not called; verification fails: 500 "Server error.", request untouched; otherwise no reply, `req.account` is the decoded account and next is called exactly once |
| Auth.Login | routes/auth.ts:14-56 | status 200; ok exactly when account and password are given and a user with that account has a hash matching the password; on success the token is sign(account); each refusal carries its message ("Account and password are required.", "Not exist user.", "Incorrect password.") and no token; the tables are only read |
| UserRoutes.Register | routes/user.ts:10-52 | missing account or password: "Not exist data.", nothing changes; existing account: "Already exist user.", nothing changes; otherwise exactly one user is added under a fresh id, holding the account and hash(password), and the reply carries sign(account) |
| UserRoutes.RegisterTwice | routes/user.ts:21-41 | registering one account twice: the second call is refused and the table keeps the first call's row and hash |
| PostRoutes.CreatePost | routes/post.ts:9-50 | empty content: 400 "Not exist content."; unknown caller: 400 "Not exist user."; in both cases no post is added; otherwise exactly one post is added under a fresh id, with the content and the caller's user id, and returned |
| PostRoutes.PageIds | routes/post.ts:63-79 | page p lists at most 3 post ids in descending order, the i-th with 3p + i ids above it, as many as remain after position 3p |
| PostRoutes.ListPosts | routes/post.ts:52-97 | no page: 400 "Not exist page."; an empty page (3p >= number of posts): 400 "Not exist posts."; otherwise ok with the views of that page's posts |
| PostRoutes.ListedPage | routes/post.ts:63-88 | a successful listing holds 1 to 3 posts, each with its author's account, descending by id, the first at position 3p |
| PostRoutes.ViewOf | routes/post.ts:66-74 | a listed post carries its own id, content and userId and its author's account |
| PostRoutes.GetPost | routes/post.ts:99-142 | ok exactly when the post exists, with its view; otherwise 400 "Not exist post." |
| PostRoutes.UpdatePost | routes/post.ts:195-252 | empty content: 400 "Not exist data."; unknown caller, missing post, or another user's post: the refusal and no change; owner: only that post's content changes (id and userId kept, other posts untouched) and the new row is returned |
| PostRoutes.DeletePost | routes/post.ts:254-307 | unknown caller, missing or foreign post: the refusal and no change; owner: exactly that post is removed and returned |
| CommentRoutes.CommentIdsOf | routes/comment.ts:77-80 | the ids of exactly the comments whose postId is the given one |
| CommentRoutes.ListComments | routes/comment.ts:66-105 | ok exactly when a postId is given (otherwise 400 "Not exist post id."), also when no comment matches; the reply echoes the postId |
| CommentRoutes.ListedComments | routes/comment.ts:77-96 | the listing holds every comment on the post and nothing else, each with its author's account, strictly descending by id, with no pagination |
| CommentRoutes.DetailOf | routes/comment.ts:118-144 | the comment with its author's account and its parent post summary, which is absent exactly when the parent row is gone |
| CommentRoutes.GetComment | routes/comment.ts:107-155 | always ok with status 200; the comment is null exactly when no comment has the id |
| CommentRoutes.CreateComment | routes/comment.ts:9-64 | missing content or postId: 400 "Not exist data."; unknown caller: 400 "Not exist user."; no such post: 400 "Not exist post."; in each case no comment is added; otherwise exactly one comment is added under a fresh id, with the caller's user id and the existing post's id |
| CommentRoutes.UpdateComment | routes/comment.ts:157-214 | empty content: 400 "Not exist data."; unknown caller, missing or foreign comment: the refusal and no change; owner: only that comment's content changes |
| CommentRoutes.DeleteComment | routes/comment.ts:216-269 | unknown caller, missing or foreign comment: the refusal and no change; owner: exactly that comment is removed and returned |
| LikeRoutes.RowsFor | routes/like.ts:47-51 | the ids of exactly the like rows that refer to the subject |
| LikeRoutes.FindFirstLike | routes/like.ts:47-51 | none exactly when no like row refers to the subject; otherwise the lowest-id such row |
| LikeRoutes.MarkLiked | routes/like.ts:47-73 | a row is created, under the next id and with the default flag, exactly when none referred to the subject; the marked row ends liked; the reply carries that row as found or created, before the flag is set; no other row changes; the table stays numbered below its counter |
| LikeRoutes.MarkedRows | routes/like.ts:47-59 | after a mark the subject's rows are its earlier rows plus the marked one |
| LikeRoutes.MarkLikedOneRow | routes/like.ts:47-68 | with at most one row per subject before, the subject has exactly one row afterwards and it is liked, and at most one row per subject still holds |
| LikeRoutes.MarkLikedIdempotent | routes/like.ts:47-68 | marking the same subject twice leaves the table and the counter exactly as one mark does |
| LikeRoutes.MarkLikedInPlace | routes/like.ts:47-73 | the handler's find, conditional create and in-place flag update give the table, counter and returned row of MarkLiked |
| LikeRoutes.LikePost | routes/like.ts:9-82 | missing postId: 400 "Not exist data."; unknown caller: 400 "Not exist user."; no such post: 400 "Not exist post."; in each case no like row is created; otherwise the like table becomes MarkLiked's and the reply carries the row before the update; the caller's user never reaches the row |
| LikeRoutes.LikeComment | routes/like.ts:84-157 | the same for a comment, with 400 "Not exist comment." for a missing comment |

## Left out

- Application wiring in index.ts (body parsers, port, `listen`) is not modelled. index.ts:14-17 never mounts the like router, so `PUT /like` is unreachable as deployed. Its handlers are modelled anyway.
- Route dispatch is not modelled. `GET /post/:userId` (routes/post.ts:144-193) is shadowed by `GET /post/:id` and is not modelled. The second `PUT /like` (routes/like.ts:84) is shadowed by the first. Each handler is a separate member.
- jsonwebtoken and bcrypt are parameters, so nothing is proved about them. `verify(sign(a)) == a`, and the one-way nature of the hash, are properties of the libraries. A decoded token payload without an `account` claim is not represented.
- The random bcrypt salt and the token's issued-at (`iat`) claim are not modelled: `bcrypt.hashSync` draws a fresh salt per call and `jwt.sign` reads the clock, but `hash` and `sign` are functions of their argument, so each stands for one fixed draw.
- The Prisma query engine is replaced by maps. Autoincrement is a counter per table that starts at 1. The schema is not part of the model, so three things are assumed. A new like row has `isLiked` false. Deleting a post leaves its comments and its like rows in place (no cascade and no foreign-key refusal). `findFirst` and `findUnique` return the lowest matching id.
- Store failures are not modelled. The replies sent from catch blocks are therefore out: 500 "Server error." in the post, comment and like handlers, and no reply at all in login and registration (routes/auth.ts:53-55, routes/user.ts:49-51). `console.error` is also out.
- async/await and the check-then-act race between two concurrent likes of one subject are not modelled. Handlers run one at a time, which is why one like row per subject is an invariant here.
- JavaScript coercions are not modelled. `+id` of a non-numeric string is NaN; ids and the page are natural numbers. A JSON number 0 given as `postId` in a request body is falsy in JavaScript, but here `Some(0)` counts as given. No row has id 0, so such a call still adds nothing; the only difference is the message.
- The `!id` checks on route parameters (routes/post.ts:103, 201, 259; routes/comment.ts:111, 163, 221) cannot fire, because Express never yields an empty `:id`. The handlers take the id as a `nat`.
- JSON serialisation is not modelled: a successful reply has an empty `message` instead of no `message` key.
