/** `incrementCredits`: the credit counter update of the user table. */
module Ledger {
  import opened Wrappers
  import opened Records

  datatype LedgerError = UserNotFound(id: UserId)

  /** The table after the update and the updated row, which the store
      returns to the caller. */
  datatype Updated = Updated(users: Store, user: User)

  /** Adds one credit to the trigger owner's row. Updating a row that does
      not exist fails; the table is then untouched. */
  function IncrementCredits(users: Store, t: Trigger): (r: Result<Updated, LedgerError>)
    ensures r.Ok? <==> t.userId in users
    ensures r.Err? ==> r.error == UserNotFound(t.userId)
    ensures r.Ok? ==> r.value.users.Keys == users.Keys
    ensures r.Ok? ==> r.value.user == r.value.users[t.userId]
    ensures r.Ok? ==> r.value.user.credits == users[t.userId].credits + 1
    ensures r.Ok? ==> r.value.user.id == users[t.userId].id && r.value.user.paid == users[t.userId].paid
    ensures r.Ok? ==> forall id :: id in users && id != t.userId ==> r.value.users[id] == users[id]
  {
    if t.userId in users then
      var u := users[t.userId];
      var u' := u.(credits := u.credits + 1);
      Ok(Updated(users[t.userId := u'], u'))
    else
      Err(UserNotFound(t.userId))
  }
}
