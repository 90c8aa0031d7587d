/** An in-memory stand-in for the two MySQL tables, `user` and `entries`:
    rows kept in insertion order with auto-increment ids, the searches and
    counts the handlers' queries perform, and the once-per-day property of
    the ledger. */
module Store {
  import opened Common
  import opened Dates

  /** A row of the `user` table. */
  datatype UserRow = UserRow(id: nat, name: Value, mobile: Value, location: Value, dob: Value)

  /** A row of the `entries` table; `day` is the stored date, already
      truncated to a calendar day. */
  datatype EntryRow = EntryRow(id: nat, day: Date, japqty: Value, userId: nat)

  /** Position of the first element that satisfies `p`. A handler reading
      `result[0]` of a SELECT gets the earliest inserted matching row. */
  function FirstWhere<T>(s: seq<T>, p: T -> bool): (r: Option<nat>)
    ensures r.Some? ==> r.value < |s| && p(s[r.value]) && forall k :: 0 <= k < r.value ==> !p(s[k])
    ensures r.None? <==> forall k :: 0 <= k < |s| ==> !p(s[k])
  {
    if |s| == 0 then None
    else if p(s[0]) then Some(0)
    else match FirstWhere(s[1..], p)
      case None => None
      case Some(i) => Some(i + 1)
  }

  /** Appending a row never changes an existing first match, and the new
      row is the first match exactly when nothing matched before. */
  lemma {:induction false} FirstWhereAppend<T>(s: seq<T>, x: T, p: T -> bool)
    ensures FirstWhere(s, p).Some? ==> FirstWhere(s + [x], p) == FirstWhere(s, p)
    ensures FirstWhere(s, p).None? ==> FirstWhere(s + [x], p) == if p(x) then Some(|s|) else None
  {
    if |s| > 0 {
      assert (s + [x])[1..] == s[1..] + [x];
      FirstWhereAppend(s[1..], x, p);
    }
  }

  /** The three windows of the counts endpoint, anchored at `today`. */
  datatype Window = OnDay | InMonth | InYear

  predicate InWindow(w: Window, d: Date, today: Date)
  {
    match w
    case OnDay => d == today
    case InMonth => d.year == today.year && d.month == today.month
    case InYear => d.year == today.year
  }

  predicate Counted(e: EntryRow, userId: nat, w: Window, today: Date)
  {
    e.userId == userId && InWindow(w, e.day, today)
  }

  /** `SELECT COUNT(*) FROM entries WHERE <window> AND user_Id = ?`. */
  function CountIn(es: seq<EntryRow>, userId: nat, w: Window, today: Date): (n: nat)
    ensures n <= |es|
  {
    if |es| == 0 then 0
    else CountIn(es[..|es| - 1], userId, w, today) + (if Counted(es[|es| - 1], userId, w, today) then 1 else 0)
  }

  /** Appending one entry raises a count by one when the entry falls in
      the window, and leaves it alone otherwise. */
  lemma CountAppend(es: seq<EntryRow>, e: EntryRow, userId: nat, w: Window, today: Date)
    ensures CountIn(es + [e], userId, w, today)
         == CountIn(es, userId, w, today) + (if Counted(e, userId, w, today) then 1 else 0)
  {
  }

  /** A count is zero exactly when no entry of that user lies in the window. */
  lemma {:induction false} CountZero(es: seq<EntryRow>, userId: nat, w: Window, today: Date)
    ensures CountIn(es, userId, w, today) == 0 <==> forall k :: 0 <= k < |es| ==> !Counted(es[k], userId, w, today)
  {
    if |es| > 0 {
      var init := es[..|es| - 1];
      CountZero(init, userId, w, today);
      assert forall k :: 0 <= k < |init| ==> init[k] == es[k];
    }
  }

  /** The windows nest (same day, then same month and year, then same
      year), so the daily count never exceeds the monthly one and the
      monthly never exceeds the yearly one. */
  lemma {:induction false} WindowsNest(es: seq<EntryRow>, userId: nat, today: Date)
    ensures CountIn(es, userId, OnDay, today) <= CountIn(es, userId, InMonth, today)
    ensures CountIn(es, userId, InMonth, today) <= CountIn(es, userId, InYear, today)
  {
    if |es| > 0 {
      WindowsNest(es[..|es| - 1], userId, today);
    }
  }

  /** `SELECT * FROM entries WHERE DATE(date) = ? AND user_Id = ? LIMIT 1`
      returns a row. A date without a day (`DATE()` is NULL) matches nothing. */
  predicate HasEntryOn(es: seq<EntryRow>, userId: nat, day: Option<Date>)
  {
    exists k :: 0 <= k < |es| && es[k].userId == userId && Some(es[k].day) == day
  }

  /** The existence query finds a row exactly when the count of that
      user's entries on that day is positive. */
  lemma HasEntryIffCounted(es: seq<EntryRow>, userId: nat, day: Date)
    ensures HasEntryOn(es, userId, Some(day)) <==> CountIn(es, userId, OnDay, day) > 0
  {
    CountZero(es, userId, OnDay, day);
  }

  /** The ledger's invariant: at most one entry per user and calendar day. */
  ghost predicate OncePerDay(es: seq<EntryRow>)
  {
    forall i, j :: 0 <= i < j < |es| && es[i].userId == es[j].userId ==> es[i].day != es[j].day
  }

  /** Under the invariant, a user has at most one entry on any day. */
  lemma {:induction false} OncePerDayCountsAtMostOne(es: seq<EntryRow>, userId: nat, day: Date)
    requires OncePerDay(es)
    ensures CountIn(es, userId, OnDay, day) <= 1
  {
    if |es| > 0 {
      var init, last := es[..|es| - 1], es[|es| - 1];
      assert OncePerDay(init) by {
        forall i, j | 0 <= i < j < |init| && init[i].userId == init[j].userId
          ensures init[i].day != init[j].day
        {
          assert init[i] == es[i] && init[j] == es[j];
        }
      }
      OncePerDayCountsAtMostOne(init, userId, day);
      if Counted(last, userId, OnDay, day) {
        CountZero(init, userId, OnDay, day);
        forall k | 0 <= k < |init| ensures !Counted(init[k], userId, OnDay, day) {
          assert init[k] == es[k];
        }
      }
    }
  }

  /** Appending an entry for a (user, day) pair that has none keeps the
      invariant, and leaves exactly one entry for that pair. */
  lemma AppendFreshDay(es: seq<EntryRow>, e: EntryRow)
    requires !HasEntryOn(es, e.userId, Some(e.day))
    ensures OncePerDay(es) ==> OncePerDay(es + [e])
    ensures CountIn(es + [e], e.userId, OnDay, e.day) == 1
  {
    CountAppend(es, e, e.userId, OnDay, e.day);
    CountZero(es, e.userId, OnDay, e.day);
    var t := es + [e];
    assert forall k :: 0 <= k < |es| ==> !Counted(es[k], e.userId, OnDay, e.day);
    if OncePerDay(es) {
      forall i, j | 0 <= i < j < |t| && t[i].userId == t[j].userId ensures t[i].day != t[j].day {
        if j == |es| {
          assert t[i] == es[i];
        } else {
          assert t[i] == es[i] && t[j] == es[j];
        }
      }
    }
  }

  /** Both tables with their auto-increment counters. */
  class Db {
    var users: seq<UserRow>
    var entries: seq<EntryRow>
    var nextUserId: nat
    var nextEntryId: nat

    /** Auto-increment ids: positive, increasing in insertion order and
        below the next id to hand out, hence unique. */
    ghost predicate Valid()
      reads this
    {
      && nextUserId >= 1 && nextEntryId >= 1
      && (forall i, j :: 0 <= i < j < |users| ==> users[i].id < users[j].id)
      && (forall i :: 0 <= i < |users| ==> 1 <= users[i].id < nextUserId)
      && (forall i, j :: 0 <= i < j < |entries| ==> entries[i].id < entries[j].id)
      && (forall i :: 0 <= i < |entries| ==> 1 <= entries[i].id < nextEntryId)
    }

    constructor ()
      ensures Valid()
      ensures users == [] && entries == []
    {
      users, entries := [], [];
      nextUserId, nextEntryId := 1, 1;
    }

    /** `INSERT INTO user (name, mobile, location, dob) VALUES (?, ?, ?, ?)`:
        appends one row under a fresh id (`result.insertId`). */
    method InsertUser(name: Value, mobile: Value, location: Value, dob: Value) returns (id: nat)
      requires Valid()
      modifies this
      ensures Valid()
      ensures id == old(nextUserId) && nextUserId == id + 1
      ensures forall k :: 0 <= k < |old(users)| ==> old(users)[k].id != id
      ensures users == old(users) + [UserRow(id, name, mobile, location, dob)]
      ensures entries == old(entries) && nextEntryId == old(nextEntryId)
    {
      id := nextUserId;
      users := users + [UserRow(id, name, mobile, location, dob)];
      nextUserId := nextUserId + 1;
    }

    /** `INSERT INTO entries(date, japqty, user_Id) VALUES (?, ?, ?)`. */
    method InsertEntry(day: Date, japqty: Value, userId: nat) returns (id: nat)
      requires Valid()
      modifies this
      ensures Valid()
      ensures id == old(nextEntryId) && nextEntryId == id + 1
      ensures forall k :: 0 <= k < |old(entries)| ==> old(entries)[k].id != id
      ensures entries == old(entries) + [EntryRow(id, day, japqty, userId)]
      ensures users == old(users) && nextUserId == old(nextUserId)
    {
      id := nextEntryId;
      entries := entries + [EntryRow(id, day, japqty, userId)];
      nextEntryId := nextEntryId + 1;
    }
  }
}
