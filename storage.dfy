/** The database the handlers share (the Prisma client of every route file),
    as four in-memory tables keyed by id, with an autoincrement counter per table. */
module Storage {
  import opened Schema
  import Keys

  /** The `account` column of the user table is unique. */
  predicate UniqueAccounts(users: map<nat, User>)
  {
    forall a, b :: a in users && b in users && users[a].account == users[b].account ==> a == b
  }

  /** Each post row is stored under its own id. */
  predicate PostsKeyed(posts: map<nat, Post>)
  {
    forall k :: k in posts ==> posts[k].id == k
  }

  predicate CommentsKeyed(comments: map<nat, Comment>)
  {
    forall k :: k in comments ==> comments[k].id == k
  }

  /** Every post's author is a row of the user table (users are never deleted). */
  predicate PostsOwned(users: map<nat, User>, posts: map<nat, Post>)
  {
    forall k :: k in posts ==> posts[k].userId in users
  }

  predicate CommentsOwned(users: map<nat, User>, comments: map<nat, Comment>)
  {
    forall k :: k in comments ==> comments[k].userId in users
  }

  /** At most one like row refers to any one subject. */
  predicate OneLikePerSubject(likes: map<nat, Like>)
  {
    forall a, b :: a in likes && b in likes && likes[a].subject == likes[b].subject ==> a == b
  }

  /** `findUnique({ where: { account } })`: the id of the user row with that account, if any. */
  function FindUserId(users: map<nat, User>, account: string): (k: Option<nat>)
    ensures k.Some? ==> k.value in users && users[k.value].account == account
    ensures k.None? <==> forall j :: j in users ==> users[j].account != account
  {
    var ids := set j | j in users.Keys && users[j].account == account;
    if ids == {} then
      assert forall j :: j in users && users[j].account == account ==> j in ids;
      None
    else Some(Keys.MinOf(ids))
  }

  /** With unique accounts the user found is the one row holding the account. */
  lemma FindUserIdUnique(users: map<nat, User>, account: string, k: nat)
    requires UniqueAccounts(users)
    requires k in users && users[k].account == account
    ensures FindUserId(users, account) == Some(k)
  {
  }

  class Store {
    var users: map<nat, User>
    var posts: map<nat, Post>
    var comments: map<nat, Comment>
    var likes: map<nat, Like>
    // The autoincrement counters: the id the next insert into each table gets.
    var nextUserId: nat
    var nextPostId: nat
    var nextCommentId: nat
    var nextLikeId: nat

    ghost predicate Valid()
      reads this
    {
      && (forall k :: k in users ==> 0 < k < nextUserId && users[k].id == k)
      && (forall k :: k in posts ==> 0 < k < nextPostId) && PostsKeyed(posts)
      && (forall k :: k in comments ==> 0 < k < nextCommentId) && CommentsKeyed(comments)
      && (forall k :: k in likes ==> 0 < k < nextLikeId && likes[k].id == k)
      && 0 < nextUserId && 0 < nextPostId && 0 < nextCommentId && 0 < nextLikeId
      && UniqueAccounts(users)
      && PostsOwned(users, posts)
      && CommentsOwned(users, comments)
      && OneLikePerSubject(likes)
    }

    constructor ()
      ensures Valid()
      ensures users == map[] && posts == map[] && comments == map[] && likes == map[]
    {
      users, posts, comments, likes := map[], map[], map[], map[];
      nextUserId, nextPostId, nextCommentId, nextLikeId := 1, 1, 1, 1;
    }
  }
}
