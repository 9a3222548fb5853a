/**
 * The three loops that list recent school days (apps/api/prisma/seed.ts, demo-school.seed.ts and
 * seed-performance-tenant.ts). A day is a number of days since 1 January 1970, a Thursday; the closed
 * day of the Nepali school week is Saturday.
 */
module SchoolDays {
  import opened Foundations

  const SATURDAY := 6

  /** getUTCDay: Sunday is 0. */
  function Weekday(day: int): (w: int)
    ensures 0 <= w < 7
  {
    (day + 4) % 7
  }

  predicate IsSchoolDay(day: int) {
    Weekday(day) != SATURDAY
  }

  /** 3 January 1970 was a Saturday: the closed days are that day and every seventh before and after it. */
  lemma ClosedDaysAreSaturdays(day: int)
    ensures !IsSchoolDay(2)
    ensures !IsSchoolDay(day) <==> (day - 2) % 7 == 0
    ensures !IsSchoolDay(day) ==> forall d :: day - 7 < d < day + 7 && d != day ==> IsSchoolDay(d)
  {
  }

  /** The `count` latest school days up to `latest`, newest first. */
  function Recent(latest: int, count: nat): seq<int>
    decreases count, if IsSchoolDay(latest) then 0 else 1
  {
    if count == 0 then []
    else if IsSchoolDay(latest) then [latest] + Recent(latest - 1, count - 1)
    else Recent(latest - 1, count)
  }

  /** How many days a caller gets: none for a negative count. */
  function Requested(count: int): nat {
    if count < 0 then 0 else count
  }

  lemma RecentGrows(latest: int, found: seq<int>, cursor: int, count: nat)
    requires |found| < count && found + Recent(cursor, count - |found|) == Recent(latest, count)
    ensures IsSchoolDay(cursor) ==> found + [cursor] + Recent(cursor - 1, count - |found| - 1) == Recent(latest, count)
    ensures !IsSchoolDay(cursor) ==> found + Recent(cursor - 1, count - |found|) == Recent(latest, count)
  {
    if IsSchoolDay(cursor) {
      var rest := Recent(cursor - 1, count - |found| - 1);
      assert found + [cursor] + rest == found + ([cursor] + rest);
    }
  }

  /** seed-performance-tenant.ts: days up to and including today. */
  method DaysEndingToday(today: int, count: int) returns (days: seq<int>)
    ensures days == Reverse(Recent(today, Requested(count)))
  {
    days := [];
    var cursor := today;
    while |days| < count
      invariant |days| <= Requested(count)
      invariant days + Recent(cursor, Requested(count) - |days|) == Recent(today, Requested(count))
      decreases count - |days|, if IsSchoolDay(cursor) then 0 else 1
    {
      RecentGrows(today, days, cursor, count);
      if Weekday(cursor) != SATURDAY {
        days := days + [cursor];
      }
      cursor := cursor - 1;
    }
    assert days + [] == days;
    days := Reverse(days);
  }

  /** seed.ts: the same loop from yesterday. */
  method DaysBeforeToday(today: int, count: int) returns (days: seq<int>)
    ensures days == Reverse(Recent(today - 1, Requested(count)))
  {
    days := [];
    var cursor := today;
    cursor := cursor - 1;
    while |days| < count
      invariant |days| <= Requested(count)
      invariant days + Recent(cursor, Requested(count) - |days|) == Recent(today - 1, Requested(count))
      decreases count - |days|, if IsSchoolDay(cursor) then 0 else 1
    {
      RecentGrows(today - 1, days, cursor, count);
      if Weekday(cursor) != SATURDAY {
        days := days + [cursor];
      }
      cursor := cursor - 1;
    }
    assert days + [] == days;
    days := Reverse(days);
  }

  /** demo-school.seed.ts: a growing offset from today, newest day first. */
  method DaysByOffset(today: int, count: int) returns (days: seq<int>)
    ensures days == Recent(today - 1, Requested(count))
  {
    days := [];
    var offset := 1;
    while |days| < count
      invariant |days| <= Requested(count)
      invariant days + Recent(today - offset, Requested(count) - |days|) == Recent(today - 1, Requested(count))
      decreases count - |days|, if IsSchoolDay(today - offset) then 0 else 1
    {
      var candidate := today - offset;
      RecentGrows(today - 1, days, candidate, count);
      if Weekday(candidate) != SATURDAY {
        days := days + [candidate];
      }
      offset := offset + 1;
    }
  }

  // ---- What the lists are ----

  /** The school days from `from` to `to`, none left out, in ascending order. */
  ghost predicate AreSchoolDaysBetween(days: seq<int>, from: int, to: int) {
    && (forall i, j :: 0 <= i < j < |days| ==> days[i] < days[j])
    && forall d :: d in days <==> from <= d <= to && IsSchoolDay(d)
  }

  /** The k-th school day back from `latest`, without looking at the days between. */
  function Back(latest: int, k: nat): int {
    var w := Weekday(latest);
    if w == SATURDAY then latest - 1 - k - k / 6 else latest - k - (k + 5 - w) / 6
  }

  lemma BackStep(latest: int, k: nat)
    ensures !IsSchoolDay(latest) ==> Back(latest, k) == Back(latest - 1, k)
    ensures IsSchoolDay(latest) ==> Back(latest, 0) == latest
    ensures IsSchoolDay(latest) && k > 0 ==> Back(latest, k) == Back(latest - 1, k - 1)
  {
    var w := Weekday(latest);
    assert Weekday(latest - 1) == if w == 0 then 6 else w - 1;
  }

  /** Every entry in closed form: six school days for every seven days. */
  lemma {:induction false} RecentInClosedForm(latest: int, count: nat, k: nat)
    requires k < count
    ensures |Recent(latest, count)| == count && Recent(latest, count)[k] == Back(latest, k)
    decreases count, if IsSchoolDay(latest) then 0 else 1
  {
    hide Back;
    BackStep(latest, k);
    if !IsSchoolDay(latest) {
      RecentInClosedForm(latest - 1, count, k);
    } else if count > 1 {
      RecentInClosedForm(latest - 1, count - 1, if k > 0 then k - 1 else 0);
    }
  }

  lemma {:induction false} RecentIsComplete(latest: int, count: nat, d: int)
    ensures |Recent(latest, count)| == count
    ensures count > 0 ==> Recent(latest, count)[count - 1] <= latest
    ensures d in Recent(latest, count) <==>
      count > 0 && Recent(latest, count)[count - 1] <= d <= latest && IsSchoolDay(d)
    decreases count, if IsSchoolDay(latest) then 0 else 1
  {
    if count > 0 {
      if IsSchoolDay(latest) {
        RecentIsComplete(latest - 1, count - 1, d);
      } else {
        RecentIsComplete(latest - 1, count, d);
      }
    }
  }

  lemma {:induction false} RecentDescends(latest: int, count: nat)
    ensures forall i :: 0 <= i < |Recent(latest, count)| ==> Recent(latest, count)[i] <= latest
    ensures forall i, j :: 0 <= i < j < |Recent(latest, count)| ==> Recent(latest, count)[i] > Recent(latest, count)[j]
    decreases count, if IsSchoolDay(latest) then 0 else 1
  {
    if count > 0 {
      RecentDescends(latest - 1, if IsSchoolDay(latest) then count - 1 else count);
    }
  }

  /** Exactly `count` distinct school days, ascending, ending at the latest one, with none skipped. */
  lemma ListIsExact(latest: int, count: nat)
    requires count > 0
    ensures var days := Reverse(Recent(latest, count));
      |days| == count && AreSchoolDaysBetween(days, days[0], latest)
  {
    var recent, days := Recent(latest, count), Reverse(Recent(latest, count));
    ReverseAt(recent);
    RecentDescends(latest, count);
    RecentIsComplete(latest, count, latest);
    assert days[0] == recent[count - 1];
    forall d ensures d in days <==> days[0] <= d <= latest && IsSchoolDay(d) {
      RecentIsComplete(latest, count, d);
      if d in recent {
        var i :| 0 <= i < |recent| && recent[i] == d;
        assert days[|recent| - 1 - i] == d;
      }
    }
  }

  /**
   * The three scripts agree: the offset loop lists the cursor loop's days backwards, and the cursor
   * loop from today is the one from yesterday a day later.
   */
  method CompareScripts(today: int, count: int) returns (cursor: seq<int>, offset: seq<int>, ending: seq<int>)
    ensures cursor == Reverse(offset) && offset == Reverse(cursor) && ending == cursor
    ensures |cursor| == Requested(count)
  {
    cursor := DaysBeforeToday(today, count);
    offset := DaysByOffset(today, count);
    ending := DaysEndingToday(today - 1, count);
    ReverseTwice(offset);
    ReverseAt(offset);
    RecentIsComplete(today - 1, Requested(count), today);
  }
}
