/** routes/comment.ts: create on an existing post, the listing by post, get
    by id, and the owner-only update and delete of comments. */
module CommentRoutes {
  import opened Schema
  import opened Storage
  import opened Ownership
  import Keys

  /** The ids of the comments on post `postId`. */
  function CommentIdsOf(comments: map<nat, Comment>, postId: nat): (ids: set<nat>)
    ensures forall k :: k in ids <==> k in comments && comments[k].postId == postId
  {
    set k | k in comments.Keys && comments[k].postId == postId
  }

  function ViewOf(users: map<nat, User>, c: Comment): (v: CommentView)
    requires c.userId in users
    ensures v.id == c.id && v.content == c.content && v.userId == c.userId
    ensures v.account == users[c.userId].account
  {
    CommentView(c.id, c.content, c.userId, users[c.userId].account)
  }

  function ViewsOf(users: map<nat, User>, comments: map<nat, Comment>, ids: seq<nat>): (vs: seq<CommentView>)
    requires CommentsOwned(users, comments)
    requires forall i :: 0 <= i < |ids| ==> ids[i] in comments
    ensures |vs| == |ids|
    ensures forall i :: 0 <= i < |ids| ==> vs[i] == ViewOf(users, comments[ids[i]])
  {
    seq(|ids|, i requires 0 <= i < |ids| => ViewOf(users, comments[ids[i]]))
  }

  /** `GET /comment?postId=N`: every comment on the post, by descending id, without
      pagination. No comment, or no such post, is still a successful reply. */
  function ListComments(users: map<nat, User>, comments: map<nat, Comment>, postId: Option<nat>): (r: Response)
    requires CommentsOwned(users, comments)
    ensures r.ok <==> postId.Some?
    ensures postId.None? ==> r == Fail(400, "Not exist post id.")
    ensures postId.Some? ==>
      r == Ok(CommentsBody(postId.value, ViewsOf(users, comments, Keys.SortedDesc(CommentIdsOf(comments, postId.value)))))
  {
    match postId
    case None => Fail(400, "Not exist post id.")
    case Some(p) =>
      Ok(CommentsBody(p, ViewsOf(users, comments, Keys.SortedDesc(CommentIdsOf(comments, p)))))
  }

  /** A listing holds exactly the comments on the post, each once, newest first. */
  lemma ListedComments(users: map<nat, User>, comments: map<nat, Comment>, postId: nat)
    requires CommentsOwned(users, comments) && CommentsKeyed(comments)
    ensures var vs := ListComments(users, comments, Some(postId)).body.comments;
      && (forall i :: 0 <= i < |vs| ==>
            && vs[i].id in comments
            && comments[vs[i].id].postId == postId
            && vs[i] == ViewOf(users, comments[vs[i].id]))
      && (forall k :: k in comments && comments[k].postId == postId ==>
            exists i :: 0 <= i < |vs| && vs[i].id == k)
      && (forall i, j :: 0 <= i < j < |vs| ==> vs[i].id > vs[j].id)
  {
  }

  /** The comment as `GET /comment/:id` selects it, with its parent post if that row exists. */
  function DetailOf(users: map<nat, User>, posts: map<nat, Post>, c: Comment): (d: CommentDetail)
    requires PostsOwned(users, posts) && c.userId in users
    ensures d.id == c.id && d.content == c.content && d.userId == c.userId && d.postId == c.postId
    ensures d.account == users[c.userId].account
    ensures d.post.Some? <==> c.postId in posts
    ensures d.post.Some? ==>
      var p := posts[c.postId];
      d.post.value == PostSummary(p.content, p.userId, users[p.userId].account)
  {
    var post :=
      if c.postId in posts then
        var p := posts[c.postId];
        Some(PostSummary(p.content, p.userId, users[p.userId].account))
      else None;
    CommentDetail(c.id, c.content, c.userId, users[c.userId].account, c.postId, post)
  }

  /** `GET /comment/:id`: always a successful reply; a missing comment is a null `comment`. */
  function GetComment(users: map<nat, User>, posts: map<nat, Post>, comments: map<nat, Comment>, id: nat): (r: Response)
    requires PostsOwned(users, posts) && CommentsOwned(users, comments)
    ensures r.ok && r.status == 200 && r.body.CommentDetailBody?
    ensures r.body.detail.Some? <==> id in comments
    ensures id in comments ==> r.body.detail.value == DetailOf(users, posts, comments[id])
  {
    if id in comments then Ok(CommentDetailBody(Some(DetailOf(users, posts, comments[id]))))
    else Ok(CommentDetailBody(None))
  }

  /** `POST /comment`, behind the token gate, which supplies `account`. */
  method CreateComment(db: Store, account: string, content: Option<string>, postId: Option<nat>)
    returns (res: Response)
    requires db.Valid()
    modifies db`comments, db`nextCommentId
    ensures db.Valid()
    ensures !(Present(content) && postId.Some?) ==> res == Fail(400, "Not exist data.") && unchanged(db)
    ensures Present(content) && postId.Some? && FindUserId(db.users, account).None? ==>
      res == Fail(400, "Not exist user.") && unchanged(db)
    ensures Present(content) && postId.Some? && FindUserId(db.users, account).Some? && postId.value !in db.posts ==>
      res == Fail(400, "Not exist post.") && unchanged(db)
    ensures Present(content) && postId.Some? && FindUserId(db.users, account).Some? && postId.value in db.posts ==>
      var c := Comment(old(db.nextCommentId), content.value, FindUserId(db.users, account).value, postId.value);
      && c.id !in old(db.comments)
      && db.comments == old(db.comments)[c.id := c]
      && db.nextCommentId == c.id + 1
      && res == Ok(CommentBody(c))
  {
    if !Present(content) || postId.None? {
      return Fail(400, "Not exist data.");
    }
    var user := FindUserId(db.users, account);
    if user.None? {
      return Fail(400, "Not exist user.");
    }
    if postId.value !in db.posts {
      return Fail(400, "Not exist post.");
    }
    var c := Comment(db.nextCommentId, content.value, user.value, db.posts[postId.value].id);
    db.comments := db.comments[c.id := c];
    db.nextCommentId := db.nextCommentId + 1;
    res := Ok(CommentBody(c));
  }

  /** The `userId` of the comment with that id, or None when there is none. */
  function OwnerOf(comments: map<nat, Comment>, id: nat): Option<nat>
  {
    if id in comments then Some(comments[id].userId) else None
  }

  /** `PUT /comment/:id`, behind the token gate. */
  method UpdateComment(db: Store, account: string, id: nat, content: Option<string>) returns (res: Response)
    requires db.Valid()
    modifies db`comments
    ensures db.Valid()
    ensures !Present(content) ==> res == Fail(400, "Not exist data.") && unchanged(db)
    ensures Present(content) && !Authorize(db.users, account, OwnerOf(old(db.comments), id)).Allowed? ==>
      res == Refusal(Authorize(db.users, account, OwnerOf(old(db.comments), id))) && unchanged(db)
    ensures Present(content) && Authorize(db.users, account, OwnerOf(old(db.comments), id)).Allowed? ==>
      var c := old(db.comments)[id].(content := content.value);
      && id in old(db.comments)
      && db.comments == old(db.comments)[id := c]
      && res == Ok(CommentBody(c))
  {
    if !Present(content) {
      return Fail(400, "Not exist data.");
    }
    var d := Authorize(db.users, account, OwnerOf(db.comments, id));
    if !d.Allowed? {
      return Refusal(d);
    }
    var c := db.comments[id].(content := content.value);
    db.comments := db.comments[id := c];
    res := Ok(CommentBody(c));
  }

  /** `DELETE /comment/:id`, behind the token gate. */
  method DeleteComment(db: Store, account: string, id: nat) returns (res: Response)
    requires db.Valid()
    modifies db`comments
    ensures db.Valid()
    ensures !Authorize(db.users, account, OwnerOf(old(db.comments), id)).Allowed? ==>
      res == Refusal(Authorize(db.users, account, OwnerOf(old(db.comments), id))) && unchanged(db)
    ensures Authorize(db.users, account, OwnerOf(old(db.comments), id)).Allowed? ==>
      && id in old(db.comments)
      && db.comments == old(db.comments) - {id}
      && res == Ok(CommentBody(old(db.comments)[id]))
  {
    var d := Authorize(db.users, account, OwnerOf(db.comments, id));
    if !d.Allowed? {
      return Refusal(d);
    }
    var deleted := db.comments[id];
    db.comments := db.comments - {id};
    res := Ok(CommentBody(deleted));
  }
}
