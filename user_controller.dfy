/** `controllers/userController.js`: `submitForm`, which accepts only a
    full profile, reuses a row with the same name, mobile and location, and
    otherwise creates the user through `createUser`. */
module UserController {
  import opened Common
  import opened Store
  import opened Identity
  import UserModel

  /** Queries, in order: the lookup (0) and the insert inside
      `createUser` (1). The token is represented by the claims it would
      carry; a created user is answered with 201. */
  method SubmitForm(db: Db, p: Profile, outage: Outage) returns (r: LoginReply)
    requires db.Valid()
    modifies db
    ensures db.Valid()
    ensures db.entries == old(db.entries) && db.nextEntryId == old(db.nextEntryId)
    ensures db.nextUserId == old(db.nextUserId) + (|db.users| - |old(db.users)|)
    ensures !Complete(p) ==> r == LoginReply(400, None, None) && db.users == old(db.users)
    ensures Complete(p) && Fails(outage, 0) ==> r == LoginReply(500, None, None) && db.users == old(db.users)
    ensures Complete(p) && !Fails(outage, 0) && LookupIdentity(old(db.users), p).Some? ==>
      db.users == old(db.users)
      && r == LoginReply(200, Some(Claims(LookupIdentity(old(db.users), p).value.id)), LookupIdentity(old(db.users), p))
    ensures Complete(p) && !Fails(outage, 0) && LookupIdentity(old(db.users), p).None? && Fails(outage, 1) ==>
      r == LoginReply(500, None, None) && db.users == old(db.users)
    ensures Complete(p) && !Fails(outage, 0) && LookupIdentity(old(db.users), p).None? && !Fails(outage, 1) ==>
      var res := Resolve(old(db.users), old(db.nextUserId), p);
      db.users == res.users && r == LoginReply(201, Some(Claims(res.row.id)), None)
  {
    if !Complete(p) {
      return LoginReply(400, None, None);
    }
    if Fails(outage, 0) {
      return LoginReply(500, None, None);
    }
    var found := LookupIdentity(db.users, p);
    if found.Some? {
      return LoginReply(200, Some(Claims(found.value.id)), found);
    }
    var created := UserModel.CreateUser(db, p.name, p.mobile, p.location, p.dob, Fails(outage, 1));
    match created
    case CreateFailed =>
      r := LoginReply(500, None, None);
    case CreateOk(id) =>
      r := LoginReply(201, Some(Claims(id)), None);
  }

  /** `submitForm` as the file stands: `db` is used at the lookup without
      being imported, so once the fields pass validation the handler throws
      a ReferenceError, which the framework answers with 500. No lookup or
      insert runs and no token is issued. */
  function SubmitFormAsWritten(p: Profile): (r: LoginReply)
    ensures !Complete(p) ==> r == LoginReply(400, None, None)
    ensures Complete(p) ==> r.status == 500
    ensures r.token.None?
  {
    if !Complete(p) then LoginReply(400, None, None) else LoginReply(500, None, None)
  }

  /** The discrepancy, stated against the two replies `SubmitForm`
      ensures on a healthy store: for every complete profile and every
      table, the handler as written gives neither the 200 reply for an
      existing matching row nor the 201 reply with the token for a newly
      created one. (This follows from `SubmitFormAsWritten`'s own contract;
      the lemma spells out the contrast with the intended handler.) */
  lemma AsWrittenNeverLogsIn(p: Profile, users: seq<UserRow>, nextId: nat)
    requires Complete(p)
    ensures LookupIdentity(users, p).Some? ==>
      SubmitFormAsWritten(p) != LoginReply(200, Some(Claims(LookupIdentity(users, p).value.id)), LookupIdentity(users, p))
    ensures LookupIdentity(users, p).None? ==>
      SubmitFormAsWritten(p) != LoginReply(201, Some(Claims(Resolve(users, nextId, p).row.id)), None)
  {
  }
}
