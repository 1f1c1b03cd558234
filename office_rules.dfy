/**
 * The rules of the office attendance app (venv/updated_code.py) that do not depend on its
 * stored state: the face-match rule, the time-of-day status, the one-row-per-day ledger,
 * the monthly summary and salary, and the admin password gate.
 */
module OfficeRules {
  import opened Common
  import opened OrderedDicts

  /** Office timings (venv/updated_code.py:172-175) and the summary's full-day cutoff (line 239). */
  const OfficeStart: int := HMS(12, 55, 0)
  const FullPresentEnd: int := HMS(13, 5, 0)
  const LatePunchEnd: int := HMS(17, 0, 0)
  const HalfDayEnd: int := HMS(17, 15, 0)
  const FullDayCutoff: int := HMS(14, 0, 0)

  /** A stored face matches a probe when their cosine similarity is strictly above this. */
  const MatchThreshold: real := 0.7

  // ---------------------------------------------------------------------------------------
  // Matching: the first stored face, in the dictionary's order, whose score beats the threshold

  /** The name chosen by the break-out loop over `names` (iteration order) with `scores[i]`
      the similarity of the probe to the encoding stored under `names[i]`. */
  function MatchFrom(names: seq<string>, scores: seq<real>, i: nat): (r: Option<string>)
    requires |scores| == |names| && i <= |names|
    ensures r.Some? ==> exists k :: i <= k < |names| && names[k] == r.value && scores[k] > MatchThreshold
    decreases |names| - i
  {
    if i == |names| then None
    else if scores[i] > MatchThreshold then Some(names[i])
    else MatchFrom(names, scores, i + 1)
  }

  function Matched(names: seq<string>, scores: seq<real>): (r: Option<string>)
    requires |scores| == |names|
    ensures r.Some? ==> exists k :: 0 <= k < |names| && names[k] == r.value && scores[k] > MatchThreshold
  {
    MatchFrom(names, scores, 0)
  }

  lemma {:induction false} MatchFromIsFirstAbove(names: seq<string>, scores: seq<real>, i: nat)
    requires |scores| == |names| && i <= |names|
    ensures MatchFrom(names, scores, i).None? <==>
              forall j :: i <= j < |scores| ==> scores[j] <= MatchThreshold
    ensures MatchFrom(names, scores, i).Some? ==>
              exists k :: i <= k < |names| && names[k] == MatchFrom(names, scores, i).value &&
                          scores[k] > MatchThreshold &&
                          forall j :: i <= j < k ==> scores[j] <= MatchThreshold
    decreases |names| - i
  {
    if i < |names| && scores[i] <= MatchThreshold {
      MatchFromIsFirstAbove(names, scores, i + 1);
      assert MatchFrom(names, scores, i) == MatchFrom(names, scores, i + 1);
      if MatchFrom(names, scores, i + 1).Some? {
        var k :| i + 1 <= k < |names| && names[k] == MatchFrom(names, scores, i + 1).value &&
                 scores[k] > MatchThreshold && forall j :: i + 1 <= j < k ==> scores[j] <= MatchThreshold;
        assert forall j :: i <= j < k ==> scores[j] <= MatchThreshold;
      }
    }
  }

  /** The match is the first name whose score is strictly above 0.7; there is none exactly
      when no score is above 0.7. */
  lemma MatchedIsFirstAboveThreshold(names: seq<string>, scores: seq<real>)
    requires |scores| == |names|
    ensures Matched(names, scores).None? <==> forall j :: 0 <= j < |scores| ==> scores[j] <= MatchThreshold
    ensures Matched(names, scores).Some? ==>
              exists k :: 0 <= k < |names| && names[k] == Matched(names, scores).value &&
                          scores[k] > MatchThreshold &&
                          forall j :: 0 <= j < k ==> scores[j] <= MatchThreshold
  {
    MatchFromIsFirstAbove(names, scores, 0);
  }

  /** The first name above the threshold wins even when a later face is more similar. */
  lemma {:induction false} MatchNeedNotBeBest()
    ensures Matched(["first", "second"], [0.75, 0.99]) == Some("first")
  {
    assert MatchFrom(["first", "second"], [0.75, 0.99], 0) == Some("first");
  }

  // ---------------------------------------------------------------------------------------
  // Status of a punch by the time of day

  datatype Status = FullDay | Late | HalfDay | Absent

  /** The status written for a punch at time `t` (venv/updated_code.py:180-189). */
  function Classify(t: Seconds): (s: Status)
    ensures s == FullDay <==> OfficeStart <= t <= FullPresentEnd
    ensures s == Late <==> FullPresentEnd < t <= LatePunchEnd
    ensures s == HalfDay <==> LatePunchEnd < t
    ensures s == Absent <==> t < OfficeStart
  {
    if OfficeStart <= t <= FullPresentEnd then FullDay
    else if FullPresentEnd < t <= LatePunchEnd then Late
    else if LatePunchEnd < t <= HalfDayEnd then HalfDay
    else if t > HalfDayEnd then HalfDay
    else Absent
  }

  // ---------------------------------------------------------------------------------------
  // The attendance sheet: at most one row per (name, date)

  /** One row of the attendance sheet; the Timestamp column is the date and time together. */
  datatype Row = Row(name: string, date: string, time: Seconds, status: Status)

  predicate HasEntry(rows: seq<Row>, name: string, date: string) {
    exists i :: 0 <= i < |rows| && rows[i].name == name && rows[i].date == date
  }

  ghost predicate OnePerDay(rows: seq<Row>) {
    forall i, j :: 0 <= i < j < |rows| ==> rows[i].name != rows[j].name || rows[i].date != rows[j].date
  }

  /** The sheet after a recognised `name` punches at `now`: unchanged when the name already has
      a row for that date, otherwise one new row at the end (venv/updated_code.py:198-211). */
  function Record(rows: seq<Row>, name: string, now: Clock): (r: seq<Row>)
    ensures rows <= r && |r| <= |rows| + 1
    ensures HasEntry(r, name, now.date)
  {
    if HasEntry(rows, name, now.date) then rows
    else
      var r := rows + [Row(name, now.date, now.time, Classify(now.time))];
      assert r[|rows|].name == name && r[|rows|].date == now.date;
      r
  }

  /** Recording keeps every earlier row in place, adds at most one row, and afterwards the
      name has a row for the date. */
  lemma RecordAppendsOnly(rows: seq<Row>, name: string, now: Clock)
    ensures var r := Record(rows, name, now);
      && rows <= r && |r| <= |rows| + 1
      && HasEntry(r, name, now.date)
      && (|r| == |rows| + 1 <==> !HasEntry(rows, name, now.date))
      && (|r| == |rows| + 1 ==> r[|rows|] == Row(name, now.date, now.time, Classify(now.time)))
  {
    var r := Record(rows, name, now);
    if !HasEntry(rows, name, now.date) {
      assert r[|rows|].name == name && r[|rows|].date == now.date;
    }
  }

  /** Recording keeps the sheet free of duplicate (name, date) rows. */
  lemma RecordKeepsOnePerDay(rows: seq<Row>, name: string, now: Clock)
    requires OnePerDay(rows)
    ensures OnePerDay(Record(rows, name, now))
  {
  }

  /** A second punch on the same day changes nothing. */
  lemma RecordTwice(rows: seq<Row>, name: string, now: Clock, later: Clock)
    requires later.date == now.date
    ensures Record(Record(rows, name, now), name, later) == Record(rows, name, now)
  {
    RecordAppendsOnly(rows, name, now);
  }

  /** After a punch, the name has exactly one row for the date. */
  lemma RecordLeavesOneRow(rows: seq<Row>, name: string, now: Clock)
    requires OnePerDay(rows)
    ensures var r := Record(rows, name, now);
      exists i :: 0 <= i < |r| && r[i].name == name && r[i].date == now.date &&
        forall j :: 0 <= j < |r| && r[j].name == name && r[j].date == now.date ==> j == i
  {
    RecordAppendsOnly(rows, name, now);
    RecordKeepsOnePerDay(rows, name, now);
  }

  // ---------------------------------------------------------------------------------------
  // Monthly summary and salary

  /** The rows of `name` whose date starts with `month` (venv/updated_code.py:228). */
  function UserMonthRows(rows: seq<Row>, name: string, month: string): (r: seq<Row>)
    ensures forall x :: x in r <==> x in rows && x.name == name && month <= x.date
    ensures |r| <= |rows|
  {
    if rows == [] then []
    else
      var rest := UserMonthRows(rows[1..], name, month);
      if rows[0].name == name && month <= rows[0].date then [rows[0]] + rest else rest
  }

  /** The rows whose date starts with `month` (venv/updated_code.py:277). */
  function MonthRows(rows: seq<Row>, month: string): (r: seq<Row>)
    ensures forall x :: x in r <==> x in rows && month <= x.date
    ensures |r| <= |rows|
  {
    if rows == [] then []
    else
      var rest := MonthRows(rows[1..], month);
      if month <= rows[0].date then [rows[0]] + rest else rest
  }

  /** The filter keeps each row of the user and month as often as the sheet holds it, and no
      other row. */
  lemma {:induction false} UserMonthRowsCounts(rows: seq<Row>, name: string, month: string)
    ensures forall x :: multiset(UserMonthRows(rows, name, month))[x] ==
              if x.name == name && month <= x.date then multiset(rows)[x] else 0
  {
    if rows != [] {
      UserMonthRowsCounts(rows[1..], name, month);
      assert rows == [rows[0]] + rows[1..];
    }
  }

  /** The filter keeps each row of the month as often as the sheet holds it, and no other row. */
  lemma {:induction false} MonthRowsCounts(rows: seq<Row>, month: string)
    ensures forall x :: multiset(MonthRows(rows, month))[x] == if month <= x.date then multiset(rows)[x] else 0
  {
    if rows != [] {
      MonthRowsCounts(rows[1..], month);
      assert rows == [rows[0]] + rows[1..];
    }
  }

  /** Filtering a sheet in two parts and joining the results filters the whole sheet: the rows
      keep their sheet order. */
  lemma {:induction false} UserMonthRowsOfConcat(a: seq<Row>, b: seq<Row>, name: string, month: string)
    ensures UserMonthRows(a + b, name, month) == UserMonthRows(a, name, month) + UserMonthRows(b, name, month)
  {
    if a != [] {
      assert (a + b)[1..] == a[1..] + b;
      UserMonthRowsOfConcat(a[1..], b, name, month);
    } else {
      assert a + b == b;
    }
  }

  lemma {:induction false} MonthRowsOfConcat(a: seq<Row>, b: seq<Row>, month: string)
    ensures MonthRows(a + b, month) == MonthRows(a, month) + MonthRows(b, month)
  {
    if a != [] {
      assert (a + b)[1..] == a[1..] + b;
      MonthRowsOfConcat(a[1..], b, month);
    } else {
      assert a + b == b;
    }
  }

  /** Rows punched at or before 14:00 count as full days, later ones as half days. */
  function FullDays(rows: seq<Row>): (n: nat)
    ensures n <= |rows|
  {
    if rows == [] then 0
    else FullDays(rows[..|rows| - 1]) + (if rows[|rows| - 1].time <= FullDayCutoff then 1 else 0)
  }

  function HalfDays(rows: seq<Row>): (n: nat)
    ensures n <= |rows|
  {
    if rows == [] then 0
    else HalfDays(rows[..|rows| - 1]) + (if rows[|rows| - 1].time <= FullDayCutoff then 0 else 1)
  }

  /** Every row is either a full day or a half day. */
  lemma {:induction false} FullPlusHalf(rows: seq<Row>)
    ensures FullDays(rows) + HalfDays(rows) == |rows|
  {
    if rows != [] {
      FullPlusHalf(rows[..|rows| - 1]);
    }
  }

  /** The full-day count is the number of rows punched at or before 14:00. */
  lemma {:induction false} FullDaysCountsEarlyRows(rows: seq<Row>)
    ensures FullDays(rows) == |set i | 0 <= i < |rows| && rows[i].time <= FullDayCutoff|
  {
    if rows != [] {
      var n := |rows| - 1;
      var init := rows[..n];
      FullDaysCountsEarlyRows(init);
      var before := set i | 0 <= i < n && init[i].time <= FullDayCutoff;
      var after := set i | 0 <= i < |rows| && rows[i].time <= FullDayCutoff;
      if rows[n].time <= FullDayCutoff {
        assert after == before + {n};
      } else {
        assert after == before;
      }
    }
  }

  /** The status column plays no part in the summary: a row marked Absent (a punch before
      12:55) is paid as a full day, and so is a Late row up to 14:00. */
  lemma StatusIgnoredBySummary(r: Row)
    requires r.status == Classify(r.time)
    requires r.status == Absent || (r.status == Late && r.time <= FullDayCutoff)
    ensures FullDays([r]) == 1
  {
    assert [r][..0] == [];
  }

  /** `total_salary` (venv/updated_code.py:248): a half day earns half the day rate. */
  function TotalSalary(fullDays: nat, halfDays: nat, perDay: real): (pay: real)
    ensures pay == perDay * (fullDays as real + halfDays as real / 2.0)
    ensures perDay >= 0.0 ==> fullDays as real * perDay <= pay <= (fullDays + halfDays) as real * perDay
  {
    (fullDays as real * perDay) + (halfDays as real * (perDay / 2.0))
  }

  lemma SalaryExample()
    ensures TotalSalary(3, 2, 500.0) == 2000.0
  {
  }

  /** The stored profile of a name: an admin has a password hash, a user a day rate. */
  datatype Profile = Profile(isAdmin: bool, password: Option<string>, perDaySalary: Option<real>)

  datatype SummaryOutcome =
    | NoAttendanceFile
    | NoRecords
    | SalaryLookupFailed
    | Summary(fullDays: nat, halfDays: nat, totalSalary: real)

  /** `calculate_user_summary` (venv/updated_code.py:219-259); `file` is None while the
      attendance sheet does not exist. A name without a stored day rate makes the lookup of
      line 245 fail, which the source reports as an error. */
  function UserSummary(file: Option<seq<Row>>, users: map<string, Profile>, name: string, month: string): (r: SummaryOutcome)
    ensures r == NoAttendanceFile <==> file.None?
    ensures r == NoRecords <==>
              file.Some? && !exists x :: x in file.value && x.name == name && month <= x.date
    ensures r == SalaryLookupFailed ==> name !in users || users[name].perDaySalary.None?
    ensures r.Summary? ==> name in users && users[name].perDaySalary.Some?
  {
    match file
    case None => NoAttendanceFile
    case Some(rows) =>
      var mine := UserMonthRows(rows, name, month);
      assert mine != [] ==> mine[0] in mine;
      if mine == [] then NoRecords
      else if name !in users || users[name].perDaySalary.None? then SalaryLookupFailed
      else
        var full, half := FullDays(mine), HalfDays(mine);
        Summary(full, half, TotalSalary(full, half, users[name].perDaySalary.value))
  }

  /** A summary counts every matching row once, as a full or a half day, and pays by the
      stored day rate; no matching row is an error, never a zero summary. */
  lemma SummaryCountsMatchingRows(file: Option<seq<Row>>, users: map<string, Profile>, name: string, month: string)
    ensures var s := UserSummary(file, users, name, month);
      && (file.Some? && (forall x :: x in file.value ==> x.name != name || !(month <= x.date)) ==> s == NoRecords)
      && (s.Summary? ==>
            var mine := UserMonthRows(file.value, name, month);
            && s.fullDays + s.halfDays == |mine| > 0
            && s.fullDays == |set i | 0 <= i < |mine| && mine[i].time <= FullDayCutoff|
            && name in users && users[name].perDaySalary.Some?
            && s.totalSalary == TotalSalary(s.fullDays, s.halfDays, users[name].perDaySalary.value))
  {
    if file.Some? {
      var mine := UserMonthRows(file.value, name, month);
      FullPlusHalf(mine);
      FullDaysCountsEarlyRows(mine);
      if mine != [] {
        assert mine[0] in mine;
      }
    }
  }

  // ---------------------------------------------------------------------------------------
  // The admin password gate of deletion and report download

  datatype GateOutcome = Granted | Denied | PasswordFieldMissing

  /** venv/updated_code.py:264 and 345: an unknown name or a wrong password is refused; a
      name stored without a password (a plain user) makes the lookup fail. */
  function Gate(users: map<string, Profile>, hash: string -> string, name: string, password: string): (g: GateOutcome)
    ensures g == Granted <==> name in users && users[name].password == Some(hash(password))
    ensures g == PasswordFieldMissing <==> name in users && users[name].password.None?
  {
    if name !in users then Denied
    else match users[name].password
      case None => PasswordFieldMissing
      case Some(digest) => if digest != hash(password) then Denied else Granted
  }

  // ---------------------------------------------------------------------------------------
  // The monthly report

  function Names(rows: seq<Row>): (ns: seq<string>)
    ensures |ns| == |rows| && forall i :: 0 <= i < |rows| ==> ns[i] == rows[i].name
  {
    seq(|rows|, i requires 0 <= i < |rows| => rows[i].name)
  }

  /** Each element of `u` occurs in `s` before every occurrence of any later element of `u`. */
  ghost predicate InFirstAppearanceOrder(u: seq<string>, s: seq<string>) {
    forall i, j, m :: 0 <= i < j < |u| && 0 <= m < |s| && s[m] == u[j] ==> u[i] in s[..m]
  }

  /** Extending `s` by one element keeps the first-appearance order of its distinct elements
      when the element is appended exactly if it is new. */
  lemma FirstAppearanceStep(s: seq<string>, init: seq<string>)
    requires |s| > 0
    requires forall x :: x in init <==> x in s[..|s| - 1]
    requires InFirstAppearanceOrder(init, s[..|s| - 1])
    ensures InFirstAppearanceOrder(if s[|s| - 1] in init then init else init + [s[|s| - 1]], s)
  {
    var prev, last := s[..|s| - 1], s[|s| - 1];
    var u := if last in init then init else init + [last];
    forall i, j, m | 0 <= i < j < |u| && 0 <= m < |s| && s[m] == u[j]
      ensures u[i] in s[..m]
    {
      assert i < |init| && u[i] == init[i];
      assert init[i] in init;
      if m < |prev| {
        assert prev[m] == s[m] && u[j] in init;
        assert j < |init| && u[j] == init[j];
        assert prev[..m] == s[..m];
      } else {
        assert s[..m] == prev;
      }
    }
  }

  /** `unique()`: each name once, in the order of first appearance. */
  function Unique(s: seq<string>): (u: seq<string>)
    ensures forall x :: x in u <==> x in s
    ensures Distinct(u)
    ensures InFirstAppearanceOrder(u, s)
  {
    if s == [] then []
    else
      var init := Unique(s[..|s| - 1]);
      assert forall x :: x in s <==> x in s[..|s| - 1] || x == s[|s| - 1];
      FirstAppearanceStep(s, init);
      if s[|s| - 1] in init then init else init + [s[|s| - 1]]
  }

  datatype SummaryLine = SummaryLine(name: string, fullDays: nat, halfDays: nat, totalSalary: real)

  /** One summary line per name whose summary is a result rather than an error (line 301). */
  function SummaryLines(names: seq<string>, file: Option<seq<Row>>, users: map<string, Profile>, month: string): (lines: seq<SummaryLine>)
    ensures |lines| <= |names|
  {
    if names == [] then []
    else
      var init := SummaryLines(names[..|names| - 1], file, users, month);
      var name := names[|names| - 1];
      match UserSummary(file, users, name, month)
      case Summary(full, half, pay) => init + [SummaryLine(name, full, half, pay)]
      case _ => init
  }

  /** Each line carries its name's summary, and the lines name distinct members of `names`. */
  ghost predicate LinesBelong(lines: seq<SummaryLine>, names: seq<string>, file: Option<seq<Row>>, users: map<string, Profile>, month: string) {
    && (forall i :: 0 <= i < |lines| ==>
          lines[i].name in names &&
          UserSummary(file, users, lines[i].name, month) ==
            Summary(lines[i].fullDays, lines[i].halfDays, lines[i].totalSalary))
    && (forall i, j :: 0 <= i < j < |lines| ==> lines[i].name != lines[j].name)
  }

  /** Every name of `names` that has a summary has a line. */
  ghost predicate LinesCover(lines: seq<SummaryLine>, names: seq<string>, file: Option<seq<Row>>, users: map<string, Profile>, month: string) {
    forall n :: n in names && UserSummary(file, users, n, month).Summary? ==>
      exists i :: 0 <= i < |lines| && lines[i].name == n
  }

  /** `lines` holds the successful summaries of exactly the names in `names`, each once. */
  ghost predicate SummariesOf(lines: seq<SummaryLine>, names: seq<string>, file: Option<seq<Row>>, users: map<string, Profile>, month: string) {
    LinesBelong(lines, names, file, users, month) && LinesCover(lines, names, file, users, month)
  }

  /** The summary lines name distinct members of `names`, each with its own summary. */
  lemma {:induction false} SummaryLinesBelong(names: seq<string>, file: Option<seq<Row>>, users: map<string, Profile>, month: string)
    requires Distinct(names)
    ensures LinesBelong(SummaryLines(names, file, users, month), names, file, users, month)
  {
    if names != [] {
      var init, last := names[..|names| - 1], names[|names| - 1];
      assert Distinct(init);
      SummaryLinesBelong(init, file, users, month);
      assert forall x :: x in names <==> x in init || x == last;
      assert last !in init;
      var lines, prev := SummaryLines(names, file, users, month), SummaryLines(init, file, users, month);
      var summary := UserSummary(file, users, last, month);
      if summary.Summary? {
        assert lines == prev + [SummaryLine(last, summary.fullDays, summary.halfDays, summary.totalSalary)];
      } else {
        assert lines == prev;
      }
    }
  }

  /** Every name with a summary gets a summary line. */
  lemma {:induction false} SummaryLinesCover(names: seq<string>, file: Option<seq<Row>>, users: map<string, Profile>, month: string)
    ensures LinesCover(SummaryLines(names, file, users, month), names, file, users, month)
  {
    if names != [] {
      var init, last := names[..|names| - 1], names[|names| - 1];
      SummaryLinesCover(init, file, users, month);
      assert forall x :: x in names <==> x in init || x == last;
      var lines, prev := SummaryLines(names, file, users, month), SummaryLines(init, file, users, month);
      var summary := UserSummary(file, users, last, month);
      if summary.Summary? {
        assert lines == prev + [SummaryLine(last, summary.fullDays, summary.halfDays, summary.totalSalary)];
        forall n | n in names && UserSummary(file, users, n, month).Summary?
          ensures exists i :: 0 <= i < |lines| && lines[i].name == n
        {
          if n == last {
            assert lines[|prev|].name == n;
          } else {
            var i :| 0 <= i < |prev| && prev[i].name == n;
            assert lines[i].name == n;
          }
        }
      } else {
        assert lines == prev;
      }
    }
  }

  /** The lines come in the order of their names in `names`. */
  ghost predicate LinesFollow(lines: seq<SummaryLine>, names: seq<string>) {
    forall i, j :: 0 <= i < j < |lines| ==>
      exists a, b :: 0 <= a < b < |names| && names[a] == lines[i].name && names[b] == lines[j].name
  }

  /** Summary lines are produced in the order of the names they summarise. */
  lemma {:induction false} SummaryLinesFollowNames(names: seq<string>, file: Option<seq<Row>>, users: map<string, Profile>, month: string)
    ensures LinesFollow(SummaryLines(names, file, users, month), names)
  {
    if names != [] {
      var init, last := names[..|names| - 1], names[|names| - 1];
      SummaryLinesFollowNames(init, file, users, month);
      SummaryLinesBelongTo(init, file, users, month);
      var lines, prev := SummaryLines(names, file, users, month), SummaryLines(init, file, users, month);
      var summary := UserSummary(file, users, last, month);
      if summary.Summary? {
        assert lines == prev + [SummaryLine(last, summary.fullDays, summary.halfDays, summary.totalSalary)];
        forall i, j | 0 <= i < j < |lines|
          ensures exists a, b :: 0 <= a < b < |names| && names[a] == lines[i].name && names[b] == lines[j].name
        {
          if j < |prev| {
            var a, b :| 0 <= a < b < |init| && init[a] == prev[i].name && init[b] == prev[j].name;
            assert names[a] == lines[i].name && names[b] == lines[j].name;
          } else {
            var a :| 0 <= a < |init| && init[a] == prev[i].name;
            assert names[a] == lines[i].name && names[|init|] == lines[j].name;
          }
        }
      } else {
        assert lines == prev;
        forall i, j | 0 <= i < j < |lines|
          ensures exists a, b :: 0 <= a < b < |names| && names[a] == lines[i].name && names[b] == lines[j].name
        {
          var a, b :| 0 <= a < b < |init| && init[a] == prev[i].name && init[b] == prev[j].name;
          assert names[a] == lines[i].name && names[b] == lines[j].name;
        }
      }
    }
  }

  /** Every line names a position of `names`. */
  ghost predicate LinesAt(lines: seq<SummaryLine>, names: seq<string>) {
    forall i :: 0 <= i < |lines| ==> exists a :: 0 <= a < |names| && names[a] == lines[i].name
  }

  lemma {:induction false} SummaryLinesBelongTo(names: seq<string>, file: Option<seq<Row>>, users: map<string, Profile>, month: string)
    ensures LinesAt(SummaryLines(names, file, users, month), names)
  {
    if names != [] {
      var init, last := names[..|names| - 1], names[|names| - 1];
      SummaryLinesBelongTo(init, file, users, month);
      var lines, prev := SummaryLines(names, file, users, month), SummaryLines(init, file, users, month);
      var summary := UserSummary(file, users, last, month);
      if summary.Summary? {
        assert lines == prev + [SummaryLine(last, summary.fullDays, summary.halfDays, summary.totalSalary)];
        forall i | 0 <= i < |lines| ensures exists a :: 0 <= a < |names| && names[a] == lines[i].name {
          if i < |prev| {
            var a :| 0 <= a < |init| && init[a] == prev[i].name;
            assert names[a] == lines[i].name;
          } else {
            assert names[|init|] == lines[i].name;
          }
        }
      } else {
        assert lines == prev;
        forall i | 0 <= i < |lines| ensures exists a :: 0 <= a < |names| && names[a] == lines[i].name {
          var a :| 0 <= a < |init| && init[a] == prev[i].name;
          assert names[a] == lines[i].name;
        }
      }
    }
  }

  lemma SummaryLinesAreSummaries(names: seq<string>, file: Option<seq<Row>>, users: map<string, Profile>, month: string)
    requires Distinct(names)
    ensures SummariesOf(SummaryLines(names, file, users, month), names, file, users, month)
  {
    SummaryLinesBelong(names, file, users, month);
    SummaryLinesCover(names, file, users, month);
  }

  datatype DownloadOutcome =
    | InvalidCredentials
    | CredentialLookupFailed
    | NoSheet
    | NoRecordsForMonth
    | Report(rows: seq<Row>, summaries: seq<SummaryLine>)

  /** `download_monthly_attendance` (venv/updated_code.py:262-313) without the workbook: the
      rows of the month and one summary line per user seen in them. */
  function Download(file: Option<seq<Row>>, users: map<string, Profile>, hash: string -> string,
                    month: string, admin: string, password: string): (r: DownloadOutcome)
    ensures r == InvalidCredentials <==> Gate(users, hash, admin, password) == Denied
    ensures r == CredentialLookupFailed <==> Gate(users, hash, admin, password) == PasswordFieldMissing
    ensures r == NoSheet <==> Gate(users, hash, admin, password) == Granted && file.None?
    ensures r == NoRecordsForMonth <==>
              Gate(users, hash, admin, password) == Granted && file.Some? &&
              !exists x :: x in file.value && month <= x.date
  {
    match Gate(users, hash, admin, password)
    case Denied => InvalidCredentials
    case PasswordFieldMissing => CredentialLookupFailed
    case Granted =>
      if file.None? then NoSheet
      else
        var monthly := MonthRows(file.value, month);
        assert monthly != [] ==> monthly[0] in monthly;
        if monthly == [] then NoRecordsForMonth
        else Report(monthly, SummaryLines(Unique(Names(monthly)), file, users, month))
  }

  /** Every line names someone who has a row in `rows`. */
  ghost predicate LinesFromRows(lines: seq<SummaryLine>, rows: seq<Row>) {
    forall i :: 0 <= i < |lines| ==> exists x :: x in rows && x.name == lines[i].name
  }

  /** Every name of `rows` with a day rate has a line. */
  ghost predicate SalariedListed(lines: seq<SummaryLine>, rows: seq<Row>, users: map<string, Profile>) {
    forall x :: x in rows && x.name in users && users[x.name].perDaySalary.Some? ==>
      exists i :: 0 <= i < |lines| && lines[i].name == x.name
  }

  /** Every line carries its name's summary of the month. */
  ghost predicate LinesCarrySummaries(lines: seq<SummaryLine>, sheet: seq<Row>, users: map<string, Profile>, month: string) {
    forall i :: 0 <= i < |lines| ==>
      UserSummary(Some(sheet), users, lines[i].name, month) ==
        Summary(lines[i].fullDays, lines[i].halfDays, lines[i].totalSalary)
  }

  /** The lines come in the order in which their names first appear in `rows`. */
  ghost predicate LinesInFirstAppearanceOrder(lines: seq<SummaryLine>, rows: seq<Row>) {
    forall i, j, m :: 0 <= i < j < |lines| && 0 <= m < |rows| && rows[m].name == lines[j].name ==>
      exists l :: 0 <= l < m && rows[l].name == lines[i].name
  }

  /** The report's summary block lists its names in the order of their first row (the order
      of `unique()`). */
  lemma ReportLinesInOrder(rows: seq<Row>, file: Option<seq<Row>>, users: map<string, Profile>, month: string)
    ensures LinesInFirstAppearanceOrder(SummaryLines(Unique(Names(rows)), file, users, month), rows)
  {
    var names := Names(rows);
    var u := Unique(names);
    var lines := SummaryLines(u, file, users, month);
    SummaryLinesFollowNames(u, file, users, month);
    forall i, j, m | 0 <= i < j < |lines| && 0 <= m < |rows| && rows[m].name == lines[j].name
      ensures exists l :: 0 <= l < m && rows[l].name == lines[i].name
    {
      var a, b :| 0 <= a < b < |u| && u[a] == lines[i].name && u[b] == lines[j].name;
      assert names[m] == u[b];
      assert u[a] in names[..m];
      var l :| 0 <= l < m && names[..m][l] == u[a];
      assert rows[l].name == lines[i].name;
    }
  }

  /** `rows` are exactly the month's rows of the sheet, and `lines` hold one summary for each
      distinct name in them that has a day rate, and for no other name. */
  ghost predicate MonthReport(rows: seq<Row>, lines: seq<SummaryLine>, sheet: seq<Row>,
                              users: map<string, Profile>, month: string) {
    && (forall x :: multiset(rows)[x] == if month <= x.date then multiset(sheet)[x] else 0)
    && LinesFromRows(lines, rows)
    && LinesCarrySummaries(lines, sheet, users, month)
    && SalariedListed(lines, rows, users)
    && LinesInFirstAppearanceOrder(lines, rows)
    && (forall i, j :: 0 <= i < j < |lines| ==> lines[i].name != lines[j].name)
  }

  /** Each name in the month's name list belongs to some row of the month. */
  lemma UniqueNamesComeFromRows(monthly: seq<Row>)
    ensures forall n :: n in Unique(Names(monthly)) ==> exists x :: x in monthly && x.name == n
  {
    forall n | n in Unique(Names(monthly)) ensures exists x :: x in monthly && x.name == n {
      var k :| 0 <= k < |monthly| && Names(monthly)[k] == n;
      assert monthly[k] in monthly;
    }
  }

  /** Every name of the month's rows with a day rate is listed and has a summary. */
  lemma SalariedNamesHaveSummaries(rows: seq<Row>, users: map<string, Profile>, month: string)
    ensures forall x :: x in MonthRows(rows, month) && x.name in users && users[x.name].perDaySalary.Some? ==>
              x.name in Unique(Names(MonthRows(rows, month))) &&
              UserSummary(Some(rows), users, x.name, month).Summary?
  {
    var monthly := MonthRows(rows, month);
    forall x | x in monthly && x.name in users && users[x.name].perDaySalary.Some?
      ensures x.name in Unique(Names(monthly)) && UserSummary(Some(rows), users, x.name, month).Summary?
    {
      var k :| 0 <= k < |monthly| && monthly[k] == x;
      assert Names(monthly)[k] == x.name;
      assert x in UserMonthRows(rows, x.name, month);
    }
  }

  /** A report is produced only past the password gate, when the sheet has rows of the month;
      it is then the month's report. */
  lemma DownloadReport(file: Option<seq<Row>>, users: map<string, Profile>, hash: string -> string,
                       month: string, admin: string, password: string)
    ensures Download(file, users, hash, month, admin, password).Report? <==>
              Gate(users, hash, admin, password) == Granted && file.Some? &&
              exists x :: x in file.value && month <= x.date
    ensures Download(file, users, hash, month, admin, password).Report? ==>
              Download(file, users, hash, month, admin, password).rows == MonthRows(file.value, month)
    ensures Download(file, users, hash, month, admin, password).Report? ==>
              MonthReport(Download(file, users, hash, month, admin, password).rows,
                          Download(file, users, hash, month, admin, password).summaries, file.value, users, month)
  {
    if Gate(users, hash, admin, password) == Granted && file.Some? {
      var monthly := MonthRows(file.value, month);
      if monthly != [] {
        assert monthly[0] in monthly;
        var names := Unique(Names(monthly));
        SummaryLinesAreSummaries(names, file, users, month);
        UniqueNamesComeFromRows(monthly);
        MonthRowsCounts(file.value, month);
        ReportLinesInOrder(monthly, file, users, month);
        SalariedNamesHaveSummaries(file.value, users, month);
      }
    }
  }

  // ---------------------------------------------------------------------------------------
  // The user listing

  datatype Role = Admin | User

  /** A line of `display_users`; the salary is None where the source prints "N/A". */
  datatype UserLine = UserLine(name: string, role: Role, perDaySalary: Option<real>)

  function Describe(name: string, p: Profile): (l: UserLine)
    ensures l.name == name
    ensures l.role == Admin <==> p.isAdmin
    ensures l.perDaySalary.None? <==> p.isAdmin
    ensures !p.isAdmin ==> l.perDaySalary == Some(if p.perDaySalary.Some? then p.perDaySalary.value else 0.0)
  {
    UserLine(name, if p.isAdmin then Admin else User,
             if p.isAdmin then None else Some(p.perDaySalary.GetOr(0.0)))
  }

  /** The admins among `keys`, counted one by one in iteration order. */
  function CountAdmins(keys: seq<string>, users: map<string, Profile>): (n: nat)
    requires forall k :: k in keys ==> k in users
    ensures n <= |keys|
  {
    if keys == [] then 0
    else CountAdmins(keys[..|keys| - 1], users) + (if users[keys[|keys| - 1]].isAdmin then 1 else 0)
  }

  /** Over distinct keys, the count is the number of admin names among them. */
  lemma {:induction false} CountAdminsIsAdminNames(keys: seq<string>, users: map<string, Profile>)
    requires forall k :: k in keys ==> k in users
    requires Distinct(keys)
    ensures CountAdmins(keys, users) == |set k | k in keys && users[k].isAdmin|
  {
    if keys != [] {
      var init := keys[..|keys| - 1];
      var last := keys[|keys| - 1];
      CountAdminsIsAdminNames(init, users);
      var before := set k | k in init && users[k].isAdmin;
      var after := set k | k in keys && users[k].isAdmin;
      assert forall x :: x in keys <==> x in init || x == last;
      assert last !in init;
      if users[last].isAdmin {
        assert after == before + {last};
      } else {
        assert after == before;
      }
    }
  }

  /** Over a user table, the count is the number of admins in it. */
  lemma CountAdminsOfTable(users: ODict<string, Profile>)
    requires users.Valid()
    ensures CountAdmins(users.keys, users.entries) ==
              |set k | k in users.entries && users.entries[k].isAdmin|
  {
    CountAdminsIsAdminNames(users.keys, users.entries);
    assert (set k | k in users.keys && users.entries[k].isAdmin) ==
           (set k | k in users.entries && users.entries[k].isAdmin);
  }
}
