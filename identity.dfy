/** Identity resolution shared by `POST /api/user/submit` in `index.js` and
    `submitForm` in `controllers/userController.js`: which body shapes are
    accepted, which rows a lookup finds, and what the user table looks like
    after a full-profile resolution. */
module Identity {
  import opened Common
  import opened Store

  /** The four fields of a resolution request body. */
  datatype Profile = Profile(name: Value, mobile: Value, location: Value, dob: Value)

  /** What a resolution endpoint answers: the status, the claims of the
      token it issues, and the user row it echoes back. */
  datatype LoginReply = LoginReply(status: nat, token: Option<Claims>, user: Option<UserRow>)

  /** Only the mobile number is given (a returning user logging in). */
  predicate MobileOnly(p: Profile)
  {
    Truthy(p.mobile) && !Truthy(p.name) && !Truthy(p.location) && !Truthy(p.dob)
  }

  /** All four fields are given. */
  predicate Complete(p: Profile)
  {
    Truthy(p.name) && Truthy(p.mobile) && Truthy(p.location) && Truthy(p.dob)
  }

  /** The body shapes `index.js` turns away with 400 are exactly those
      without a mobile number and those that give some, but not all, of
      name, location and date of birth. */
  lemma RejectedShapes(p: Profile)
    ensures !MobileOnly(p) && !Complete(p)
        <==> !Truthy(p.mobile)
             || ((Truthy(p.name) || Truthy(p.location) || Truthy(p.dob))
                 && !(Truthy(p.name) && Truthy(p.location) && Truthy(p.dob)))
  {
  }

  /** `WHERE mobile = ?` */
  function HasMobile(mobile: Value): UserRow -> bool
  {
    (u: UserRow) => u.mobile == mobile
  }

  /** `WHERE name = ? AND mobile = ? AND location = ?`: the date of birth
      is not part of the key. */
  function SameIdentity(p: Profile): UserRow -> bool
  {
    (u: UserRow) => u.name == p.name && u.mobile == p.mobile && u.location == p.location
  }

  /** The first row (in insertion order) with the given mobile number. */
  function LookupMobile(users: seq<UserRow>, mobile: Value): (r: Option<UserRow>)
    ensures r.Some? ==> r.value in users && r.value.mobile == mobile
    ensures r.None? <==> forall k :: 0 <= k < |users| ==> users[k].mobile != mobile
  {
    match FirstWhere(users, HasMobile(mobile))
    case None => None
    case Some(i) => Some(users[i])
  }

  /** The first row (in insertion order) with the profile's name, mobile
      and location. */
  function LookupIdentity(users: seq<UserRow>, p: Profile): (r: Option<UserRow>)
    ensures r.Some? ==> r.value in users && SameIdentity(p)(r.value)
    ensures r.None? <==> forall k :: 0 <= k < |users| ==> !SameIdentity(p)(users[k])
  {
    match FirstWhere(users, SameIdentity(p))
    case None => None
    case Some(i) => Some(users[i])
  }

  /** The user table after a full-profile resolution and the row the
      resolution settles on. */
  datatype Resolution = Resolution(users: seq<UserRow>, row: UserRow)

  /** Reuse the first row with the same name, mobile and location, or
      append a new row with all four fields under `nextId`. */
  function Resolve(users: seq<UserRow>, nextId: nat, p: Profile): (r: Resolution)
    ensures r.row in r.users && SameIdentity(p)(r.row)
    ensures r.users == users || r.users == users + [r.row]
  {
    match LookupIdentity(users, p)
    case Some(u) => Resolution(users, u)
    case None => Resolution(users + [UserRow(nextId, p.name, p.mobile, p.location, p.dob)], UserRow(nextId, p.name, p.mobile, p.location, p.dob))
  }

  /** Resolving the same profile a second time, under any next id, finds
      the row the first resolution settled on and leaves the table alone. */
  lemma ResolveIdempotent(users: seq<UserRow>, nextId: nat, laterId: nat, p: Profile)
    ensures Resolve(Resolve(users, nextId, p).users, laterId, p) == Resolve(users, nextId, p)
  {
  }

  /** A resolution never touches an existing row; it adds a row exactly
      when none has the profile's name, mobile and location, and the
      added row carries all four fields and a fresh id. */
  lemma ResolveAddsOnlyWhenUnknown(users: seq<UserRow>, nextId: nat, p: Profile)
    requires forall k :: 0 <= k < |users| ==> users[k].id < nextId
    ensures var r := Resolve(users, nextId, p);
      && users <= r.users
      && (|r.users| == |users| + 1 <==> forall k :: 0 <= k < |users| ==> !SameIdentity(p)(users[k]))
      && (|r.users| == |users| + 1 ==> r.row == UserRow(nextId, p.name, p.mobile, p.location, p.dob))
      && (|r.users| == |users| + 1 ==> forall k :: 0 <= k < |users| ==> users[k].id != r.row.id)
  {
  }

  /** Number of rows with the profile's name, mobile and location. */
  function MatchCount(users: seq<UserRow>, p: Profile): (n: nat)
    ensures n <= |users|
  {
    if |users| == 0 then 0
    else MatchCount(users[..|users| - 1], p) + (if SameIdentity(p)(users[|users| - 1]) then 1 else 0)
  }

  lemma {:induction false} MatchCountZero(users: seq<UserRow>, p: Profile)
    ensures MatchCount(users, p) == 0 <==> forall k :: 0 <= k < |users| ==> !SameIdentity(p)(users[k])
  {
    if |users| > 0 {
      var init := users[..|users| - 1];
      MatchCountZero(init, p);
      assert forall k :: 0 <= k < |init| ==> init[k] == users[k];
    }
  }

  /** Resolution leaves at least one matching row and creates one only
      when there was none: a table without the identity ends up with
      exactly one row for it, whatever the date of birth given. */
  lemma ResolveLeavesOneMatch(users: seq<UserRow>, nextId: nat, p: Profile)
    ensures var after := MatchCount(Resolve(users, nextId, p).users, p);
      after == if MatchCount(users, p) == 0 then 1 else MatchCount(users, p)
  {
    var r := Resolve(users, nextId, p);
    MatchCountZero(users, p);
    if r.users != users {
      assert r.users[..|users|] == users;
    }
  }

  /** The date of birth does not take part in finding an existing user: a
      known identity resolves to the same row whatever date of birth is
      sent along with it. */
  lemma DobIgnoredForKnownUser(users: seq<UserRow>, nextId: nat, p: Profile, otherDob: Value)
    requires LookupIdentity(users, p).Some?
    ensures Resolve(users, nextId, p.(dob := otherDob)) == Resolve(users, nextId, p)
  {
  }
}
