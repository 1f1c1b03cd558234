/**
 * The office attendance app (venv/updated_code.py) as an object: the two dictionaries it
 * keeps in memory and pickles after every change, `users` and `known_face_encodings`, and the
 * attendance sheet. Face detection and the similarity computation stay outside: callers hand
 * in the detected embedding, or the similarity of the probe to each stored face.
 */
module Office {
  import opened Common
  import opened OrderedDicts
  import opened OfficeRules

  /** A face embedding; it is stored and deleted, never inspected. */
  type Embedding = seq<real>

  datatype RegisterOutcome = AlreadyRegistered | NoFaceDetected | Registered

  datatype MarkOutcome =
    | NoFace
    | NoMatch
    | AlreadyMarked(name: string, date: string)
    | Marked(name: string, date: string, status: Status)

  datatype DeleteOutcome = InvalidAdmin | AdminLookupFailed | NotFound | Deleted

  datatype Listing = NoUsers | Listing(admins: nat, staff: nat, lines: seq<UserLine>)

  /** The loop of venv/updated_code.py:155-160: scan the stored faces in dictionary order and
      stop at the first one whose similarity is above the threshold. */
  method FirstMatch(names: seq<string>, scores: seq<real>) returns (found: Option<string>)
    requires |scores| == |names|
    ensures found == Matched(names, scores)
    ensures found.None? <==> forall j :: 0 <= j < |scores| ==> scores[j] <= MatchThreshold
    ensures found.Some? ==>
              exists k :: 0 <= k < |names| && names[k] == found.value && scores[k] > MatchThreshold &&
                          forall j :: 0 <= j < k ==> scores[j] <= MatchThreshold
  {
    MatchedIsFirstAboveThreshold(names, scores);
    var i := 0;
    while i < |names|
      invariant 0 <= i <= |names|
      invariant MatchFrom(names, scores, i) == Matched(names, scores)
    {
      if scores[i] > MatchThreshold {
        return Some(names[i]);
      }
      i := i + 1;
    }
    return None;
  }

  class AttendanceSystem {
    /** The password hash (SHA-256 hex digest in the source), left uninterpreted. */
    const hash: string -> string
    /** `users`: name to profile, in registration order. */
    var users: ODict<string, Profile>
    /** `known_face_encodings`: name to embedding, in registration order. */
    var encodings: ODict<string, Embedding>
    /** The attendance sheet; None while the file does not exist. */
    var sheet: Option<seq<Row>>

    ghost predicate Valid()
      reads this
    {
      && users.Valid() && encodings.Valid()
      && (sheet.Some? ==> OnePerDay(sheet.value))
    }

    /** The state loaded at start-up: the pickled dictionaries (or empty ones) and the sheet. */
    constructor (hash: string -> string, users: ODict<string, Profile>, encodings: ODict<string, Embedding>,
                 sheet: Option<seq<Row>>)
      requires users.Valid() && encodings.Valid()
      requires sheet.Some? ==> OnePerDay(sheet.value)
      ensures Valid()
      ensures this.hash == hash && this.users == users && this.encodings == encodings && this.sheet == sheet
    {
      this.hash := hash;
      this.users := users;
      this.encodings := encodings;
      this.sheet := sheet;
    }

    /** `register_admin` (venv/updated_code.py:78-90). */
    method RegisterAdmin(name: string, password: string) returns (r: RegisterOutcome)
      requires Valid()
      modifies this
      ensures Valid() && encodings == old(encodings) && sheet == old(sheet)
      ensures name in old(users.entries) ==> r == AlreadyRegistered && users == old(users)
      ensures name !in old(users.entries) ==>
                r == Registered && users == old(users).Put(name, Profile(true, Some(hash(password)), None))
    {
      if name in users.entries {
        return AlreadyRegistered;
      }
      users := users.Put(name, Profile(true, Some(hash(password)), None));
      return Registered;
    }

    /** `register_user` (venv/updated_code.py:93-122); `face` is the embedding of the first
        detected face, None when none was detected. */
    method RegisterUser(name: string, face: Option<Embedding>, perDaySalary: real) returns (r: RegisterOutcome)
      requires Valid()
      modifies this
      ensures Valid() && sheet == old(sheet)
      ensures r != Registered ==> users == old(users) && encodings == old(encodings)
      ensures name in old(users.entries) ==> r == AlreadyRegistered
      ensures name !in old(users.entries) && face.None? ==> r == NoFaceDetected
      ensures name !in old(users.entries) && face.Some? ==>
                && r == Registered
                && encodings == old(encodings).Put(name, face.value)
                && users == old(users).Put(name, Profile(false, None, Some(perDaySalary)))
    {
      if name in users.entries {
        return AlreadyRegistered;
      }
      if face.None? {
        return NoFaceDetected;
      }
      encodings := encodings.Put(name, face.value);
      users := users.Put(name, Profile(false, None, Some(perDaySalary)));
      return Registered;
    }

    /** `mark_attendance` (venv/updated_code.py:139-216). `scores` holds the similarity of the
        detected face to each stored encoding in dictionary order, None when no face was
        detected; `now` is the current time in the office's time zone. */
    method MarkAttendance(scores: Option<seq<real>>, now: Clock) returns (r: MarkOutcome)
      requires Valid()
      requires scores.Some? ==> |scores.value| == |encodings.keys|
      modifies this
      ensures Valid() && users == old(users) && encodings == old(encodings)
      ensures scores.None? ==> r == NoFace && sheet == old(sheet)
      ensures scores.Some? && Matched(encodings.keys, scores.value).None? ==> r == NoMatch && sheet == old(sheet)
      ensures scores.Some? && Matched(encodings.keys, scores.value).Some? ==>
                var name, rows := Matched(encodings.keys, scores.value).value, old(sheet).GetOr([]);
                && sheet == Some(Record(rows, name, now))
                && r == if HasEntry(rows, name, now.date) then AlreadyMarked(name, now.date)
                        else Marked(name, now.date, Classify(now.time))
    {
      if scores.None? {
        return NoFace;
      }
      var found := FirstMatch(encodings.keys, scores.value);
      if found.None? {
        return NoMatch;
      }
      var name := found.value;
      var status := Classify(now.time);
      if sheet.None? {
        sheet := Some([]);
      }
      var rows := sheet.value;
      if HasEntry(rows, name, now.date) {
        return AlreadyMarked(name, now.date);
      }
      RecordKeepsOnePerDay(rows, name, now);
      sheet := Some(rows + [Row(name, now.date, now.time, status)]);
      return Marked(name, now.date, status);
    }

    /** `calculate_user_summary` (venv/updated_code.py:219-259): filter the rows, count them
        one by one, then look up the day rate. */
    method CalculateUserSummary(name: string, month: string) returns (r: SummaryOutcome)
      ensures r == UserSummary(sheet, users.entries, name, month)
    {
      if sheet.None? {
        return SummaryOutcome.NoAttendanceFile;
      }
      var mine := UserMonthRows(sheet.value, name, month);
      if mine == [] {
        return NoRecords;
      }
      var full, half := 0, 0;
      var i := 0;
      while i < |mine|
        invariant 0 <= i <= |mine|
        invariant full == FullDays(mine[..i]) && half == HalfDays(mine[..i])
      {
        assert mine[..i + 1][..i] == mine[..i];
        if mine[i].time <= FullDayCutoff {
          full := full + 1;
        } else {
          half := half + 1;
        }
        i := i + 1;
      }
      assert mine[..i] == mine;
      if name !in users.entries || users.entries[name].perDaySalary.None? {
        return SalaryLookupFailed;
      }
      return Summary(full, half, TotalSalary(full, half, users.entries[name].perDaySalary.value));
    }

    /** `download_monthly_attendance` (venv/updated_code.py:262-315) up to the workbook: the
        password gate, the month's rows and a summary line per distinct name in them. */
    method DownloadMonthlyAttendance(month: string, admin: string, password: string) returns (r: DownloadOutcome)
      ensures r == Download(sheet, users.entries, hash, month, admin, password)
    {
      var gate := Gate(users.entries, hash, admin, password);
      if gate == Denied {
        return InvalidCredentials;
      } else if gate == PasswordFieldMissing {
        return CredentialLookupFailed;
      }
      if sheet.None? {
        return NoSheet;
      }
      var monthly := MonthRows(sheet.value, month);
      if monthly == [] {
        return NoRecordsForMonth;
      }
      var names := Unique(Names(monthly));
      var lines: seq<SummaryLine> := [];
      var i := 0;
      while i < |names|
        invariant 0 <= i <= |names|
        invariant lines == SummaryLines(names[..i], sheet, users.entries, month)
      {
        var summary := CalculateUserSummary(names[i], month);
        assert names[..i + 1][..i] == names[..i];
        if summary.Summary? {
          lines := lines + [SummaryLine(names[i], summary.fullDays, summary.halfDays, summary.totalSalary)];
        }
        i := i + 1;
      }
      assert names[..i] == names;
      return Report(monthly, lines);
    }

    /** `display_users` (venv/updated_code.py:318-340): one line per stored name in order,
        with the number of admins and of users. */
    method DisplayUsers() returns (r: Listing)
      requires Valid()
      ensures r == NoUsers <==> |users.entries| == 0
      ensures r.Listing? ==>
                && r.admins == |set k | k in users.entries && users.entries[k].isAdmin|
                && r.admins + r.staff == |users.entries|
                && |r.lines| == |users.keys|
                && forall i :: 0 <= i < |users.keys| ==>
                     r.lines[i] == Describe(users.keys[i], users.entries[users.keys[i]])
    {
      users.SizeIsLength();
      if |users.entries| == 0 {
        return NoUsers;
      }
      var keys, entries := users.keys, users.entries;
      var lines: seq<UserLine> := [];
      var admins, staff := 0, 0;
      var i := 0;
      while i < |keys|
        invariant 0 <= i <= |keys|
        invariant |lines| == i
        invariant forall j :: 0 <= j < i ==> lines[j] == Describe(keys[j], entries[keys[j]])
        invariant admins == CountAdmins(keys[..i], entries)
        invariant admins + staff == i
      {
        var line := Describe(keys[i], entries[keys[i]]);
        assert keys[..i + 1][..i] == keys[..i];
        lines := lines + [line];
        if line.role == Admin {
          admins := admins + 1;
        } else {
          staff := staff + 1;
        }
        i := i + 1;
      }
      assert keys[..i] == keys;
      CountAdminsOfTable(users);
      return Listing(admins, staff, lines);
    }

    /** `delete_user` (venv/updated_code.py:343-365): password gate, then removal of the name
        and, if present, of its encoding. */
    method DeleteUser(username: string, admin: string, password: string) returns (r: DeleteOutcome)
      requires Valid()
      modifies this
      ensures Valid() && sheet == old(sheet)
      ensures r == Deleted <==> Gate(old(users.entries), hash, admin, password) == Granted && username in old(users.entries)
      ensures Gate(old(users.entries), hash, admin, password) == Denied ==> r == InvalidAdmin
      ensures Gate(old(users.entries), hash, admin, password) == PasswordFieldMissing ==> r == AdminLookupFailed
      ensures Gate(old(users.entries), hash, admin, password) == Granted && username !in old(users.entries) ==> r == NotFound
      ensures r != Deleted ==> users == old(users) && encodings == old(encodings)
      ensures r == Deleted ==>
                && users == old(users).Remove(username)
                && encodings == if username in old(encodings.entries) then old(encodings).Remove(username) else old(encodings)
    {
      var gate := Gate(users.entries, hash, admin, password);
      if gate == Denied {
        return InvalidAdmin;
      } else if gate == PasswordFieldMissing {
        return AdminLookupFailed;
      }
      if username !in users.entries {
        return NotFound;
      }
      users := users.Remove(username);
      if username in encodings.entries {
        encodings := encodings.Remove(username);
      }
      return Deleted;
    }
  }
}
