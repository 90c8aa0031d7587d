/** The jap ledger endpoints of `index.js`: `GET /api/jap/check/:date`,
    `POST /api/jap/submit` and `GET /api/jap/counts`. Each runs after the
    gate has passed and receives `req.user`, the token's claims. */
module Jap {
  import opened Common
  import opened Dates
  import opened Store

  datatype CheckDateReply = CheckDateReply(status: nat, found: bool)

  /** `GET /api/jap/check/:date`: 400 unless the date reads `YYYY-MM-DD`,
      500 when the lookup fails, otherwise whether the user already has an
      entry on that day. */
  function CheckDate(db: Db, user: Claims, date: string, outage: Outage): (r: CheckDateReply)
    reads db
    ensures !IsDateFormat(date) ==> r == CheckDateReply(400, false)
    ensures IsDateFormat(date) && Fails(outage, 0) ==> r == CheckDateReply(500, false)
    ensures IsDateFormat(date) && !Fails(outage, 0) ==>
      r.status == 200
      && (r.found <==> exists k :: 0 <= k < |db.entries|
                          && db.entries[k].userId == user.userId && db.entries[k].day == ParseDate(date))
  {
    if !IsDateFormat(date) then CheckDateReply(400, false)
    else if Fails(outage, 0) then CheckDateReply(500, false)
    else
      SameDayWithSuffix(date, "");
      CheckDateReply(200, HasEntryOn(db.entries, user.userId, DayOf(Text(date))))
  }

  datatype SubmitReply = SubmitReply(status: nat, totalToday: Option<nat>)

  /** `POST /api/jap/submit`. Queries, in order: the existence check (0),
      the insert (1) and the recount (2). The date's format is not checked;
      an insert of a value without a calendar day is a storage error. The
      bound date is compared by its leading `YYYY-MM-DD` (`DayOf`), which
      agrees with the database's comparison for canonical dates only. */
  method SubmitJap(db: Db, user: Claims, date: Value, japqty: Value, outage: Outage) returns (r: SubmitReply)
    requires db.Valid()
    modifies db
    ensures db.Valid()
    ensures db.users == old(db.users) && db.nextUserId == old(db.nextUserId)
    ensures db.nextEntryId == old(db.nextEntryId) + (|db.entries| - |old(db.entries)|)
    // a missing field, a failed check, an existing entry or a failed insert leave the ledger alone
    ensures !Truthy(date) || !Truthy(japqty) ==> r == SubmitReply(400, None) && db.entries == old(db.entries)
    ensures Truthy(date) && Truthy(japqty) && Fails(outage, 0) ==>
      r == SubmitReply(500, None) && db.entries == old(db.entries)
    ensures Truthy(date) && Truthy(japqty) && !Fails(outage, 0) && HasEntryOn(old(db.entries), user.userId, DayOf(date)) ==>
      r == SubmitReply(400, None) && db.entries == old(db.entries)
    ensures Truthy(date) && Truthy(japqty) && !Fails(outage, 0) && !HasEntryOn(old(db.entries), user.userId, DayOf(date))
            && (DayOf(date).None? || Fails(outage, 1)) ==>
      r == SubmitReply(500, None) && db.entries == old(db.entries)
    // otherwise exactly one entry is appended, even if the recount then fails
    ensures Truthy(date) && Truthy(japqty) && !Fails(outage, 0) && !HasEntryOn(old(db.entries), user.userId, DayOf(date))
            && DayOf(date).Some? && !Fails(outage, 1) ==>
      db.entries == old(db.entries) + [EntryRow(old(db.nextEntryId), DayOf(date).value, japqty, user.userId)]
      && r == (if Fails(outage, 2) then SubmitReply(500, None) else SubmitReply(200, Some(1)))
    ensures r.status == 200 ==> r.totalToday == Some(CountIn(db.entries, user.userId, OnDay, DayOf(date).value))
    ensures old(OncePerDay(db.entries)) ==> OncePerDay(db.entries)
  {
    if !Truthy(date) || !Truthy(japqty) {
      return SubmitReply(400, None);
    }
    if Fails(outage, 0) {
      return SubmitReply(500, None);
    }
    var day := DayOf(date);
    if HasEntryOn(db.entries, user.userId, day) {
      return SubmitReply(400, None);
    }
    if day.None? || Fails(outage, 1) {
      return SubmitReply(500, None);
    }
    ghost var before := db.entries;
    var id := db.InsertEntry(day.value, japqty, user.userId);
    AppendFreshDay(before, EntryRow(id, day.value, japqty, user.userId));
    if Fails(outage, 2) {
      return SubmitReply(500, None);
    }
    var total := CountIn(db.entries, user.userId, OnDay, day.value);
    r := SubmitReply(200, Some(total));
  }

  datatype CountsReply = CountsReply(status: nat, daily: nat, monthly: nat, yearly: nat)

  /** `GET /api/jap/counts` relative to `today` (the database's
      `CURDATE()`). Queries, in order: daily (0), monthly (1), yearly (2). */
  function Counts(db: Db, user: Claims, today: Date, outage: Outage): (r: CountsReply)
    reads db
    ensures r.status == 200 <==> !Fails(outage, 0) && !Fails(outage, 1) && !Fails(outage, 2)
    ensures r.status != 200 ==> r == CountsReply(500, 0, 0, 0)
    ensures r.status == 200 ==>
      && r.daily == CountIn(db.entries, user.userId, OnDay, today)
      && r.monthly == CountIn(db.entries, user.userId, InMonth, today)
      && r.yearly == CountIn(db.entries, user.userId, InYear, today)
    ensures r.daily <= r.monthly <= r.yearly <= |db.entries|
  {
    if Fails(outage, 0) || Fails(outage, 1) || Fails(outage, 2) then CountsReply(500, 0, 0, 0)
    else
      WindowsNest(db.entries, user.userId, today);
      CountsReply(200,
        CountIn(db.entries, user.userId, OnDay, today),
        CountIn(db.entries, user.userId, InMonth, today),
        CountIn(db.entries, user.userId, InYear, today))
  }
}
