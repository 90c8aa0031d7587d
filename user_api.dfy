/** The user endpoints of `index.js`: `POST /api/user/submit` (log in by
    mobile number, or resolve a full profile) and `GET /api/user/details`
    (the profile of the token's user). */
module UserApi {
  import opened Common
  import opened Store
  import opened Identity

  /** `POST /api/user/submit`. Queries, in order: the lookup (0) and, on
      the full-profile path, the insert (1). The token is represented by
      the claims it would carry. */
  method SubmitUser(db: Db, p: Profile, outage: Outage) returns (r: LoginReply)
    requires db.Valid()
    modifies db
    ensures db.Valid()
    ensures db.entries == old(db.entries) && db.nextEntryId == old(db.nextEntryId)
    ensures db.nextUserId == old(db.nextUserId) + (|db.users| - |old(db.users)|)
    // mobile number only: a lookup, never an insert
    ensures MobileOnly(p) ==> db.users == old(db.users)
    ensures MobileOnly(p) && Fails(outage, 0) ==> r == LoginReply(500, None, None)
    ensures MobileOnly(p) && !Fails(outage, 0) ==>
      r == match LookupMobile(old(db.users), p.mobile)
           case None => LoginReply(404, None, None)
           case Some(u) => LoginReply(200, Some(Claims(u.id)), Some(u))
    // all four fields: find by name, mobile and location, or insert
    ensures Complete(p) && Fails(outage, 0) ==> r == LoginReply(500, None, None) && db.users == old(db.users)
    ensures Complete(p) && !Fails(outage, 0) && LookupIdentity(old(db.users), p).Some? ==>
      db.users == old(db.users)
      && r == LoginReply(200, Some(Claims(LookupIdentity(old(db.users), p).value.id)), LookupIdentity(old(db.users), p))
    ensures Complete(p) && !Fails(outage, 0) && LookupIdentity(old(db.users), p).None? && Fails(outage, 1) ==>
      r == LoginReply(500, None, None) && db.users == old(db.users)
    ensures Complete(p) && !Fails(outage, 0) && (LookupIdentity(old(db.users), p).Some? || !Fails(outage, 1)) ==>
      var res := Resolve(old(db.users), old(db.nextUserId), p);
      db.users == res.users && r.status == 200 && r.token == Some(Claims(res.row.id))
    ensures Complete(p) && !Fails(outage, 0) && LookupIdentity(old(db.users), p).None? && !Fails(outage, 1) ==>
      r.user.None?
    // any other shape
    ensures !MobileOnly(p) && !Complete(p) ==> r == LoginReply(400, None, None) && db.users == old(db.users)
  {
    if MobileOnly(p) {
      if Fails(outage, 0) {
        return LoginReply(500, None, None);
      }
      var found := LookupMobile(db.users, p.mobile);
      if found.Some? {
        r := LoginReply(200, Some(Claims(found.value.id)), found);
      } else {
        r := LoginReply(404, None, None);
      }
    } else if Complete(p) {
      if Fails(outage, 0) {
        return LoginReply(500, None, None);
      }
      var found := LookupIdentity(db.users, p);
      if found.Some? {
        return LoginReply(200, Some(Claims(found.value.id)), found);
      }
      if Fails(outage, 1) {
        return LoginReply(500, None, None);
      }
      var id := db.InsertUser(p.name, p.mobile, p.location, p.dob);
      r := LoginReply(200, Some(Claims(id)), None);
    } else {
      r := LoginReply(400, None, None);
    }
  }

  /** The columns `GET /api/user/details` selects. */
  datatype Details = Details(name: Value, mobile: Value, location: Value, dob: Value)

  datatype DetailsReply = DetailsReply(status: nat, user: Option<Details>)

  function HasId(id: nat): UserRow -> bool
  {
    (u: UserRow) => u.id == id
  }

  /** `GET /api/user/details` for the user the token names: that user's
      profile, 404 when no row has the id, 500 when the query fails. */
  function UserDetails(db: Db, user: Claims, outage: Outage): (r: DetailsReply)
    reads db
    ensures Fails(outage, 0) ==> r == DetailsReply(500, None)
    ensures !Fails(outage, 0) ==>
      (r.status == 404 <==> forall k :: 0 <= k < |db.users| ==> db.users[k].id != user.userId)
    ensures !Fails(outage, 0) && r.status != 404 ==>
      r.status == 200
      && (exists k :: 0 <= k < |db.users| && db.users[k].id == user.userId
           && r.user == Some(Details(db.users[k].name, db.users[k].mobile, db.users[k].location, db.users[k].dob)))
  {
    if Fails(outage, 0) then DetailsReply(500, None)
    else match FirstWhere(db.users, HasId(user.userId))
      case None => DetailsReply(404, None)
      case Some(i) =>
        var u := db.users[i];
        DetailsReply(200, Some(Details(u.name, u.mobile, u.location, u.dob)))
  }
}
