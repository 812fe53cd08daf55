/** routes/post.ts: create, the paginated listing, get by id, and the
    owner-only update and delete of posts. */
module PostRoutes {
  import opened Schema
  import opened Storage
  import opened Ownership
  import Keys

  /** `take: 3`: the listing's fixed page size. */
  const PageSize: nat := 3

  /** A post row with its author's account, as the queries select it. */
  function ViewOf(users: map<nat, User>, p: Post): (v: PostView)
    requires p.userId in users
    ensures v.id == p.id && v.content == p.content && v.userId == p.userId
    ensures v.account == users[p.userId].account
  {
    PostView(p.id, p.content, p.userId, users[p.userId].account)
  }

  function ViewsOf(users: map<nat, User>, posts: map<nat, Post>, ids: seq<nat>): (vs: seq<PostView>)
    requires PostsOwned(users, posts)
    requires forall i :: 0 <= i < |ids| ==> ids[i] in posts
    ensures |vs| == |ids|
    ensures forall i :: 0 <= i < |ids| ==> vs[i] == ViewOf(users, posts[ids[i]])
  {
    seq(|ids|, i requires 0 <= i < |ids| => ViewOf(users, posts[ids[i]]))
  }

  /** The ids of page `page` of the listing: positions `page * 3` up to
      `page * 3 + 3` of the post ids in descending order. */
  function PageIds(posts: map<nat, Post>, page: nat): (ids: seq<nat>)
    ensures |ids| <= PageSize
    ensures |ids| == if page * PageSize < |posts| then Keys.Min(PageSize, |posts| - page * PageSize) else 0
    ensures forall i :: 0 <= i < |ids| ==> ids[i] in posts && Keys.Above(posts.Keys, ids[i]) == page * PageSize + i
    ensures forall i, j :: 0 <= i < j < |ids| ==> ids[i] > ids[j]
  {
    assert |posts.Keys| == |posts|;
    Keys.PageOf(posts.Keys, page * PageSize, PageSize)
  }

  /** `GET /post?page=N`: the posts by descending id, `skip: page * 3`, `take: 3`. */
  function ListPosts(users: map<nat, User>, posts: map<nat, Post>, page: Option<nat>): (r: Response)
    requires PostsOwned(users, posts)
    ensures page.None? ==> r == Fail(400, "Not exist page.")
    ensures page.Some? ==> (r.ok <==> page.value * PageSize < |posts|)
    ensures page.Some? && !r.ok ==> r == Fail(400, "Not exist posts.")
    ensures r.ok ==> r == Ok(PostsBody(ViewsOf(users, posts, PageIds(posts, page.value))))
  {
    if page.None? then Fail(400, "Not exist page.")
    else
      var ids := PageIds(posts, page.value);
      if |ids| == 0 then Fail(400, "Not exist posts.")
      else Ok(PostsBody(ViewsOf(users, posts, ids)))
  }

  /** What a successful listing holds: up to three posts, each with its author's
      account, in descending id order, the first of them at position `page * 3`. */
  lemma ListedPage(users: map<nat, User>, posts: map<nat, Post>, page: nat)
    requires PostsOwned(users, posts) && PostsKeyed(posts)
    requires ListPosts(users, posts, Some(page)).ok
    ensures var vs := ListPosts(users, posts, Some(page)).body.posts;
      && 0 < |vs| <= PageSize
      && (forall i :: 0 <= i < |vs| ==>
            && vs[i].id in posts
            && vs[i] == ViewOf(users, posts[vs[i].id])
            && Keys.Above(posts.Keys, vs[i].id) == page * PageSize + i)
      && (forall i, j :: 0 <= i < j < |vs| ==> vs[i].id > vs[j].id)
  {
  }

  /** `GET /post/:id`. */
  function GetPost(users: map<nat, User>, posts: map<nat, Post>, id: nat): (r: Response)
    requires PostsOwned(users, posts)
    ensures r.ok <==> id in posts
    ensures !r.ok ==> r == Fail(400, "Not exist post.")
    ensures r.ok ==> r == Ok(PostViewBody(ViewOf(users, posts[id])))
  {
    if id !in posts then Fail(400, "Not exist post.") else Ok(PostViewBody(ViewOf(users, posts[id])))
  }

  /** `POST /post`, behind the token gate, which supplies `account`. */
  method CreatePost(db: Store, account: string, content: Option<string>) returns (res: Response)
    requires db.Valid()
    modifies db`posts, db`nextPostId
    ensures db.Valid()
    ensures !Present(content) ==> res == Fail(400, "Not exist content.") && unchanged(db)
    ensures Present(content) && FindUserId(db.users, account).None? ==>
      res == Fail(400, "Not exist user.") && unchanged(db)
    ensures Present(content) && FindUserId(db.users, account).Some? ==>
      var p := Post(old(db.nextPostId), content.value, FindUserId(db.users, account).value);
      && p.id !in old(db.posts)
      && db.posts == old(db.posts)[p.id := p]
      && db.nextPostId == p.id + 1
      && res == Ok(PostBody(p))
  {
    if !Present(content) {
      return Fail(400, "Not exist content.");
    }
    var user := FindUserId(db.users, account);
    if user.None? {
      return Fail(400, "Not exist user.");
    }
    var p := Post(db.nextPostId, content.value, user.value);
    db.posts := db.posts[p.id := p];
    db.nextPostId := db.nextPostId + 1;
    res := Ok(PostBody(p));
  }

  /** The `userId` of the post with that id, or None when there is none. */
  function OwnerOf(posts: map<nat, Post>, id: nat): Option<nat>
  {
    if id in posts then Some(posts[id].userId) else None
  }

  /** `PUT /post/:id`, behind the token gate. */
  method UpdatePost(db: Store, account: string, id: nat, content: Option<string>) returns (res: Response)
    requires db.Valid()
    modifies db`posts
    ensures db.Valid()
    ensures !Present(content) ==> res == Fail(400, "Not exist data.") && unchanged(db)
    ensures Present(content) && !Authorize(db.users, account, OwnerOf(old(db.posts), id)).Allowed? ==>
      res == Refusal(Authorize(db.users, account, OwnerOf(old(db.posts), id))) && unchanged(db)
    ensures Present(content) && Authorize(db.users, account, OwnerOf(old(db.posts), id)).Allowed? ==>
      var p := old(db.posts)[id].(content := content.value);
      && id in old(db.posts)
      && db.posts == old(db.posts)[id := p]
      && res == Ok(PostBody(p))
  {
    if !Present(content) {
      return Fail(400, "Not exist data.");
    }
    var d := Authorize(db.users, account, OwnerOf(db.posts, id));
    if !d.Allowed? {
      return Refusal(d);
    }
    var p := db.posts[id].(content := content.value);
    db.posts := db.posts[id := p];
    res := Ok(PostBody(p));
  }

  /** `DELETE /post/:id`, behind the token gate. */
  method DeletePost(db: Store, account: string, id: nat) returns (res: Response)
    requires db.Valid()
    modifies db`posts
    ensures db.Valid()
    ensures !Authorize(db.users, account, OwnerOf(old(db.posts), id)).Allowed? ==>
      res == Refusal(Authorize(db.users, account, OwnerOf(old(db.posts), id))) && unchanged(db)
    ensures Authorize(db.users, account, OwnerOf(old(db.posts), id)).Allowed? ==>
      && id in old(db.posts)
      && db.posts == old(db.posts) - {id}
      && res == Ok(PostBody(old(db.posts)[id]))
  {
    var d := Authorize(db.users, account, OwnerOf(db.posts, id));
    if !d.Allowed? {
      return Refusal(d);
    }
    var deleted := db.posts[id];
    db.posts := db.posts - {id};
    res := Ok(PostBody(deleted));
  }
}
