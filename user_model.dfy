/** `models/user.js`: `createUser`, one insert into the `user` table whose
    outcome is handed to a callback exactly once. */
module UserModel {
  import opened Common
  import opened Store

  /** The one callback invocation: `callback(err, null)` or
      `callback(null, result)` with the new row's id. */
  datatype Created = CreateFailed | CreateOk(insertId: nat)

  /** Inserts `(name, mobile, location, dob)`; `fails` says whether the
      database reports an error for that insert. */
  method CreateUser(db: Db, name: Value, mobile: Value, location: Value, dob: Value, fails: bool)
    returns (r: Created)
    requires db.Valid()
    modifies db
    ensures db.Valid()
    ensures db.entries == old(db.entries) && db.nextEntryId == old(db.nextEntryId)
    ensures fails ==> r == CreateFailed && db.users == old(db.users) && db.nextUserId == old(db.nextUserId)
    ensures !fails ==> r == CreateOk(old(db.nextUserId)) && db.nextUserId == old(db.nextUserId) + 1
    ensures !fails ==> db.users == old(db.users) + [UserRow(r.insertId, name, mobile, location, dob)]
    ensures !fails ==> forall k :: 0 <= k < |old(db.users)| ==> old(db.users)[k].id != r.insertId
  {
    if fails {
      r := CreateFailed;
    } else {
      var id := db.InsertUser(name, mobile, location, dob);
      r := CreateOk(id);
    }
  }
}
