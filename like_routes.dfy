/** routes/like.ts: mark a post, or a comment, as liked. The handler finds or
    creates the subject's like row and sets `isLiked` to true; nothing ever
    sets it back. */
module LikeRoutes {
  import opened Schema
  import opened Storage
  import Keys

  /** The ids of the like rows that refer to `s`. */
  function RowsFor(likes: map<nat, Like>, s: Subject): (ids: set<nat>)
    ensures forall k :: k in ids <==> k in likes && likes[k].subject == s
  {
    set k | k in likes.Keys && likes[k].subject == s
  }

  /** `findFirst({ where: { postId } })` (or `commentId`): the lowest-id like row for `s`. */
  function FindFirstLike(likes: map<nat, Like>, s: Subject): (k: Option<nat>)
    ensures k.None? <==> RowsFor(likes, s) == {}
    ensures k.Some? ==> k.value in RowsFor(likes, s) && forall j :: j in RowsFor(likes, s) ==> k.value <= j
  {
    var ids := RowsFor(likes, s);
    if ids == {} then None else Some(Keys.MinOf(ids))
  }

  /** Every row is stored under its own id, and every id is below the autoincrement counter. */
  predicate Numbered(likes: map<nat, Like>, nextId: nat)
  {
    forall k :: k in likes ==> likes[k].id == k && k < nextId
  }

  /** The like table after a mark, the counter after it, and the row the reply carries. */
  datatype Marked = Marked(table: map<nat, Like>, nextId: nat, like: Like)

  /** The find-or-create-then-set-liked step, on values. The reply carries the
      row as found or as created, before `isLiked` is set. */
  function MarkLiked(likes: map<nat, Like>, nextId: nat, s: Subject): (m: Marked)
    requires Numbered(likes, nextId)
    ensures Numbered(m.table, m.nextId)
    ensures m.like.subject == s
    ensures m.like.id in m.table && m.table[m.like.id] == m.like.(isLiked := true)
    // a row is created exactly when none existed, under the next id, with the default flag
    ensures RowsFor(likes, s) == {} ==>
      && m.like == Like(nextId, s, IsLikedDefault)
      && m.table.Keys == likes.Keys + {nextId} && m.nextId == nextId + 1
    ensures RowsFor(likes, s) != {} ==>
      && m.like.id in likes && m.like == likes[m.like.id]
      && (forall j :: j in RowsFor(likes, s) ==> m.like.id <= j)
      && m.table.Keys == likes.Keys && m.nextId == nextId
    // no other row changes
    ensures forall k :: k in likes && k != m.like.id ==> k in m.table && m.table[k] == likes[k]
  {
    match FindFirstLike(likes, s)
    case Some(k) =>
      Marked(likes[k := likes[k].(isLiked := true)], nextId, likes[k])
    case None =>
      var created := Like(nextId, s, IsLikedDefault);
      Marked(likes[nextId := created.(isLiked := true)], nextId + 1, created)
  }

  /** After a mark the subject has exactly one like row, and it is liked, when
      it had at most one before; the at-most-one-row rule holds afterwards. */
  lemma MarkLikedOneRow(likes: map<nat, Like>, nextId: nat, s: Subject)
    requires Numbered(likes, nextId) && OneLikePerSubject(likes)
    ensures var m := MarkLiked(likes, nextId, s);
      && RowsFor(m.table, s) == {m.like.id}
      && m.table[m.like.id].isLiked
      && OneLikePerSubject(m.table)
  {
  }

  /** The rows for `s` after a mark are the rows before it and the marked one. */
  lemma MarkedRows(likes: map<nat, Like>, nextId: nat, s: Subject)
    requires Numbered(likes, nextId)
    ensures var m := MarkLiked(likes, nextId, s);
      RowsFor(m.table, s) == RowsFor(likes, s) + {m.like.id}
  {
  }

  /** Marking the same subject twice leaves the table and the counter as one
      mark leaves them: the flag is set, never flipped back. */
  lemma MarkLikedIdempotent(likes: map<nat, Like>, nextId: nat, s: Subject)
    requires Numbered(likes, nextId)
    ensures var once := MarkLiked(likes, nextId, s);
      var twice := MarkLiked(once.table, once.nextId, s);
      && twice.table == once.table
      && twice.nextId == once.nextId
  {
  }

  /** The find, the conditional create and the in-place update of one like row,
      as the handler runs them. */
  method MarkLikedInPlace(db: Store, s: Subject) returns (like: Like)
    requires db.Valid()
    modifies db`likes, db`nextLikeId
    ensures db.Valid()
    ensures var m := MarkLiked(old(db.likes), old(db.nextLikeId), s);
      db.likes == m.table && db.nextLikeId == m.nextId && like == m.like
  {
    MarkLikedOneRow(db.likes, db.nextLikeId, s);
    var found := FindFirstLike(db.likes, s);
    if found.None? {
      like := Like(db.nextLikeId, s, IsLikedDefault);
      db.likes := db.likes[like.id := like];
      db.nextLikeId := db.nextLikeId + 1;
    } else {
      like := db.likes[found.value];
    }
    db.likes := db.likes[like.id := db.likes[like.id].(isLiked := true)];
  }

  /** `PUT /like?postId=N`, behind the token gate. The caller's user row only
      gates the call: it does not reach the like row. */
  method LikePost(db: Store, account: string, postId: Option<nat>) returns (res: Response)
    requires db.Valid()
    modifies db`likes, db`nextLikeId
    ensures db.Valid()
    ensures postId.None? ==> res == Fail(400, "Not exist data.") && unchanged(db)
    ensures postId.Some? && FindUserId(db.users, account).None? ==>
      res == Fail(400, "Not exist user.") && unchanged(db)
    ensures postId.Some? && FindUserId(db.users, account).Some? && postId.value !in db.posts ==>
      res == Fail(400, "Not exist post.") && unchanged(db)
    ensures postId.Some? && FindUserId(db.users, account).Some? && postId.value in db.posts ==>
      var m := MarkLiked(old(db.likes), old(db.nextLikeId), OnPost(postId.value));
      db.likes == m.table && db.nextLikeId == m.nextId && res == Ok(LikeBody(m.like))
  {
    if postId.None? {
      return Fail(400, "Not exist data.");
    }
    if FindUserId(db.users, account).None? {
      return Fail(400, "Not exist user.");
    }
    if postId.value !in db.posts {
      return Fail(400, "Not exist post.");
    }
    var like := MarkLikedInPlace(db, OnPost(postId.value));
    res := Ok(LikeBody(like));
  }

  /** `PUT /like?commentId=N`, behind the token gate; the same steps for a comment. */
  method LikeComment(db: Store, account: string, commentId: Option<nat>) returns (res: Response)
    requires db.Valid()
    modifies db`likes, db`nextLikeId
    ensures db.Valid()
    ensures commentId.None? ==> res == Fail(400, "Not exist data.") && unchanged(db)
    ensures commentId.Some? && FindUserId(db.users, account).None? ==>
      res == Fail(400, "Not exist user.") && unchanged(db)
    ensures commentId.Some? && FindUserId(db.users, account).Some? && commentId.value !in db.comments ==>
      res == Fail(400, "Not exist comment.") && unchanged(db)
    ensures commentId.Some? && FindUserId(db.users, account).Some? && commentId.value in db.comments ==>
      var m := MarkLiked(old(db.likes), old(db.nextLikeId), OnComment(commentId.value));
      db.likes == m.table && db.nextLikeId == m.nextId && res == Ok(LikeBody(m.like))
  {
    if commentId.None? {
      return Fail(400, "Not exist data.");
    }
    if FindUserId(db.users, account).None? {
      return Fail(400, "Not exist user.");
    }
    if commentId.value !in db.comments {
      return Fail(400, "Not exist comment.");
    }
    var like := MarkLikedInPlace(db, OnComment(commentId.value));
    res := Ok(LikeBody(like));
  }
}
