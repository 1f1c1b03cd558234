/**
 * The simple attendance app (appD.py): one attendance table per day, kept in a file named
 * after the date, in which each name is marked present at most once.
 */
module DailyRegister {
  import opened Common

  /** A row of a day's table: Name, Time, Date. */
  datatype Entry = Entry(name: string, time: Seconds, date: string)

  datatype MarkOutcome = Marked | AlreadyPresent

  /** The day files, keyed by date; a date without a file is absent from the map. */
  type Days = map<string, seq<Entry>>

  /** The table of `date`; a day without a file reads as an empty table (appD.py:19-22). */
  function DayTable(days: Days, date: string): seq<Entry> {
    if date in days then days[date] else []
  }

  predicate Present(table: seq<Entry>, name: string) {
    exists i :: 0 <= i < |table| && table[i].name == name
  }

  /** The files after marking `name` at `now` (appD.py:24-30): the day's table gains one row
      unless the name is already in it, in which case no file is written. */
  function Mark(days: Days, name: string, now: Clock): (r: Days)
    ensures r.Keys == days.Keys + {now.date} || r == days
    ensures forall d :: d in days && d != now.date ==> r[d] == days[d]
    ensures Present(DayTable(r, now.date), name)
    ensures |DayTable(r, now.date)| <= |DayTable(days, now.date)| + 1
  {
    var table := DayTable(days, now.date);
    if Present(table, name) then days
    else
      var grown := table + [Entry(name, now.time, now.date)];
      assert grown[|table|].name == name;
      days[now.date := grown]
  }

  /** A day's table holds rows of that date only, each name at most once. */
  ghost predicate WellFormedDay(date: string, table: seq<Entry>) {
    && (forall i :: 0 <= i < |table| ==> table[i].date == date)
    && (forall i, j :: 0 <= i < j < |table| ==> table[i].name != table[j].name)
  }

  ghost predicate WellFormed(days: Days) {
    forall d :: d in days ==> WellFormedDay(d, days[d])
  }

  /** Marking leaves the other days' files alone, leaves today's table as it was when the name
      is already in it, and otherwise appends exactly the new row to it. */
  lemma MarkSpec(days: Days, name: string, now: Clock)
    ensures var after := Mark(days, name, now);
      && (forall d :: d != now.date ==> (d in after <==> d in days) && (d in days ==> after[d] == days[d]))
      && (Present(DayTable(days, now.date), name) ==> after == days)
      && (!Present(DayTable(days, now.date), name) ==>
            now.date in after &&
            after[now.date] == DayTable(days, now.date) + [Entry(name, now.time, now.date)])
      && Present(DayTable(after, now.date), name)
  {
    var table := DayTable(days, now.date);
    if !Present(table, name) {
      var grown := table + [Entry(name, now.time, now.date)];
      assert grown[|table|].name == name;
    }
  }

  lemma MarkKeepsWellFormed(days: Days, name: string, now: Clock)
    requires WellFormed(days)
    ensures WellFormed(Mark(days, name, now))
  {
  }

  /** Marking the same name twice on one day is the same as marking it once. */
  lemma MarkTwice(days: Days, name: string, now: Clock, later: Clock)
    requires later.date == now.date
    ensures Mark(Mark(days, name, now), name, later) == Mark(days, name, now)
  {
    MarkSpec(days, name, now);
  }

  /** After marking, the day's table holds exactly one row of the name. */
  lemma MarkLeavesOneRow(days: Days, name: string, now: Clock)
    requires WellFormed(days)
    ensures var table := DayTable(Mark(days, name, now), now.date);
      exists i :: 0 <= i < |table| && table[i].name == name &&
        forall j :: 0 <= j < |table| && table[j].name == name ==> j == i
  {
    MarkSpec(days, name, now);
    MarkKeepsWellFormed(days, name, now);
    var after := Mark(days, name, now);
    var table := DayTable(after, now.date);
    var i :| 0 <= i < |table| && table[i].name == name;
    assert now.date in after;
    assert WellFormedDay(now.date, after[now.date]);
    assert forall j :: 0 <= j < |table| && table[j].name == name ==> j == i;
  }

  /** The per-day attendance files. */
  class Register {
    var days: Days

    ghost predicate Valid()
      reads this
    {
      WellFormed(days)
    }

    /** The files found at start-up, each written by `mark_attendance`. */
    constructor (days: Days)
      requires WellFormed(days)
      ensures Valid() && this.days == days
    {
      this.days := days;
    }

    /** `mark_attendance` (appD.py:15-30); `now` gives both today's date and the time. */
    method MarkAttendance(name: string, now: Clock) returns (r: MarkOutcome)
      requires Valid()
      modifies this
      ensures Valid()
      ensures days == Mark(old(days), name, now)
      ensures r == AlreadyPresent <==> Present(DayTable(old(days), now.date), name)
    {
      var table := if now.date in days then days[now.date] else [];
      if !Present(table, name) {
        MarkKeepsWellFormed(days, name, now);
        days := days[now.date := table + [Entry(name, now.time, now.date)]];
        return Marked;
      }
      return AlreadyPresent;
    }
  }
}
