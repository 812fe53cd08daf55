/** routes/user.ts: registration (`POST /user`). `hash(password)` stands for
    `bcrypt.hashSync(password, 10)`, `sign(account)` for
    `jwt.sign({ account }, JWT_SECRET_KEY)`. */
module UserRoutes {
  import opened Schema
  import opened Storage

  method Register(db: Store, account: Option<string>, password: Option<string>,
                  hash: string -> string, sign: string -> string) returns (res: Response)
    requires db.Valid()
    modifies db`users, db`nextUserId
    ensures db.Valid()
    ensures !(Present(account) && Present(password)) ==>
      res == Fail(200, "Not exist data.") && unchanged(db)
    ensures Present(account) && Present(password) && FindUserId(old(db.users), account.value).Some? ==>
      res == Fail(200, "Already exist user.") && unchanged(db)
    ensures Present(account) && Present(password) && FindUserId(old(db.users), account.value).None? ==>
      var id := old(db.nextUserId);
      && id !in old(db.users)
      && db.users == old(db.users)[id := User(id, account.value, hash(password.value))]
      && db.nextUserId == id + 1
      && res == Ok(TokenBody(sign(account.value)))
  {
    if !Present(account) || !Present(password) {
      return Fail(200, "Not exist data.");
    }
    if FindUserId(db.users, account.value).Some? {
      return Fail(200, "Already exist user.");
    }
    var hashed := hash(password.value);
    var id := db.nextUserId;
    db.users := db.users[id := User(id, account.value, hashed)];
    db.nextUserId := id + 1;
    res := Ok(TokenBody(sign(account.value)));
  }

  /** Registering the same account twice: the second call is refused and the
      user table keeps the row, and password hash, of the first. */
  method RegisterTwice(db: Store, account: string, first: string, second: string,
                       hash: string -> string, sign: string -> string) returns (res1: Response, res2: Response)
    requires db.Valid()
    requires account != "" && first != "" && second != ""
    requires FindUserId(db.users, account).None?
    modifies db`users, db`nextUserId
    ensures res1.ok && res2 == Fail(200, "Already exist user.")
    ensures var id := old(db.nextUserId);
      db.users == old(db.users)[id := User(id, account, hash(first))]
  {
    res1 := Register(db, Some(account), Some(first), hash, sign);
    assert db.users[old(db.nextUserId)].account == account;
    res2 := Register(db, Some(account), Some(second), hash, sign);
  }
}
