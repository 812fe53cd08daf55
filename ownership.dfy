/** The guard every update and delete of a post or comment runs before it
    writes: resolve the caller's account to a user, then compare that user's
    id with the row's `userId`. */
module Ownership {
  import opened Schema
  import opened Storage

  datatype Decision =
    | UnknownCaller          // "Not exist user."
    | CannotAccess           // "Can not access.": the row is missing or is someone else's
    | Allowed(userId: nat)

  /** `owner` is the target row's `userId`, or None when no row has the requested id. */
  function Authorize(users: map<nat, User>, account: string, owner: Option<nat>): (d: Decision)
    requires UniqueAccounts(users)
    ensures d == UnknownCaller <==> forall k :: k in users ==> users[k].account != account
    ensures d.Allowed? <==> owner.Some? && owner.value in users && users[owner.value].account == account
    ensures d.Allowed? ==> d.userId == owner.value
  {
    match FindUserId(users, account)
    case None => UnknownCaller
    case Some(uid) => if owner == Some(uid) then Allowed(uid) else CannotAccess
  }

  /** The reply a refused mutation sends. A missing row and a row owned by
      another user give the same reply. */
  function Refusal(d: Decision): (r: Response)
    requires !d.Allowed?
    ensures r.status == 400 && !r.ok && r.body == Empty
    ensures r.message == (if d == UnknownCaller then "Not exist user." else "Can not access.")
  {
    match d
    case UnknownCaller => Fail(400, "Not exist user.")
    case CannotAccess => Fail(400, "Can not access.")
  }

  /** A known caller cannot tell a missing row from a row owned by another
      user: both are refused with the same reply. */
  lemma SameRefusal(users: map<nat, User>, account: string, o: nat)
    requires UniqueAccounts(users)
    requires FindUserId(users, account).Some?
    requires o !in users || users[o].account != account
    ensures Refusal(Authorize(users, account, None)) == Refusal(Authorize(users, account, Some(o)))
    ensures Refusal(Authorize(users, account, None)) == Fail(400, "Can not access.")
  {
  }
}
