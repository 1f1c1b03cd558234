/**
 * The face-identification app (app.py): the registration sheet face_data.csv, one row per
 * registered person that doubles as that person's punch card, and the saved face files.
 * Face detection, encodings and distances come from the face_recognition library and are
 * inputs here.
 */
module FaceLog {
  import opened Common

  /** A face encoding; it is saved and loaded back, never inspected. */
  type Embedding = seq<real>

  /** An In Time or Out Time cell. `EmptyText` is the "" that registration writes; `Missing`
      is what the CSV reader hands back for an empty field (NaN). */
  datatype TimeCell = EmptyText | Missing | At(time: Seconds)

  /** The cell holds no time, in either spelling. */
  predicate IsBlank(c: TimeCell) {
    c.EmptyText? || c.Missing?
  }

  datatype FaceRow = FaceRow(name: string, role: string, idNumber: string, faceId: string,
                             inTime: TimeCell, outTime: TimeCell, date: string, email: string)

  /** A cell after the sheet is written and read back: an empty field comes back as NaN. */
  function Reread(c: TimeCell): (d: TimeCell)
    ensures d != EmptyText
    ensures IsBlank(d) <==> IsBlank(c)
    ensures !IsBlank(c) ==> d == c
  {
    if c == EmptyText then Missing else c
  }

  function Persisted(row: FaceRow): FaceRow {
    row.(inTime := Reread(row.inTime), outTime := Reread(row.outTime))
  }

  /** Every row has been through a write and a read of the CSV file. */
  ghost predicate Stored(rows: seq<FaceRow>) {
    forall i :: 0 <= i < |rows| ==> rows[i].inTime != EmptyText && rows[i].outTime != EmptyText
  }

  /** The key of a person's face file (app.py:34). */
  function FaceId(name: string, idNumber: string): string {
    name + "_" + idNumber
  }

  /** The row `save_new_face` appends (app.py:37-46). */
  function NewRow(name: string, role: string, idNumber: string, email: string, date: string): FaceRow {
    FaceRow(name, role, idNumber, FaceId(name, idNumber), EmptyText, EmptyText, date, email)
  }

  // ---------------------------------------------------------------------------------------
  // update_attendance (app.py:92-104)

  predicate Listed(rows: seq<FaceRow>, name: string) {
    exists i :: 0 <= i < |rows| && rows[i].name == name
  }

  /** The first row of `name`, the one `.values[0]` reads. */
  function FirstRow(rows: seq<FaceRow>, name: string): (k: nat)
    requires Listed(rows, name)
    ensures k < |rows| && rows[k].name == name
    ensures forall j :: 0 <= j < k ==> rows[j].name != name
  {
    if rows[0].name == name then 0
    else
      assert Listed(rows[1..], name) by {
        var i :| 0 <= i < |rows| && rows[i].name == name;
        assert rows[1..][i - 1].name == name;
      }
      1 + FirstRow(rows[1..], name)
  }

  /** The `df.loc[df['Name'] == name, ...] = ...` assignments: every row of `name` gets the
      time in its In Time (`intoIn`) or its Out Time, and today's date. */
  function Stamp(rows: seq<FaceRow>, name: string, now: Clock, intoIn: bool): seq<FaceRow> {
    seq(|rows|, i requires 0 <= i < |rows| =>
      if rows[i].name != name then rows[i]
      else if intoIn then rows[i].(inTime := At(now.time), date := now.date)
      else rows[i].(outTime := At(now.time), date := now.date))
  }

  /** `update_attendance` as written: the In Time of the first row is compared with "", which
      a cell read back from the CSV file never equals. */
  function PunchAsWritten(rows: seq<FaceRow>, name: string, now: Clock): (r: seq<FaceRow>)
    ensures |r| == |rows|
    ensures forall i :: 0 <= i < |rows| && rows[i].name != name ==> r[i] == rows[i]
  {
    if !Listed(rows, name) then rows
    else Stamp(rows, name, now, rows[FirstRow(rows, name)].inTime == EmptyText)
  }

  /** `update_attendance` as intended: an In Time that holds no time, "" or NaN, is filled. */
  function Punch(rows: seq<FaceRow>, name: string, now: Clock): (r: seq<FaceRow>)
    ensures |r| == |rows|
    ensures forall i :: 0 <= i < |rows| && rows[i].name != name ==> r[i] == rows[i]
  {
    if !Listed(rows, name) then rows
    else Stamp(rows, name, now, IsBlank(rows[FirstRow(rows, name)].inTime))
  }

  /** A punch touches only the rows of the name: it fills In Time on all of them when the
      first one has none, otherwise Out Time, and sets their date in both cases; an unknown
      name changes nothing. */
  lemma PunchSpec(rows: seq<FaceRow>, name: string, now: Clock)
    ensures var r := Punch(rows, name, now);
      && |r| == |rows|
      && (forall i :: 0 <= i < |rows| && rows[i].name != name ==> r[i] == rows[i])
      && (!Listed(rows, name) ==> r == rows)
      && (Listed(rows, name) && IsBlank(rows[FirstRow(rows, name)].inTime) ==>
            forall i :: 0 <= i < |rows| && rows[i].name == name ==>
              r[i] == rows[i].(inTime := At(now.time), date := now.date))
      && (Listed(rows, name) && !IsBlank(rows[FirstRow(rows, name)].inTime) ==>
            forall i :: 0 <= i < |rows| && rows[i].name == name ==>
              r[i] == rows[i].(outTime := At(now.time), date := now.date))
  {
  }

  lemma PunchKeepsStored(rows: seq<FaceRow>, name: string, now: Clock)
    requires Stored(rows)
    ensures Stored(Punch(rows, name, now))
  {
  }

  /** On a sheet read back from the file, the code as written never fills In Time: every
      punch of a listed name goes to Out Time. */
  lemma AsWrittenNeverSetsInTime(rows: seq<FaceRow>, name: string, now: Clock)
    requires Stored(rows)
    ensures var r := PunchAsWritten(rows, name, now);
      |r| == |rows| && forall i :: 0 <= i < |rows| ==> r[i].inTime == rows[i].inTime
  {
  }

  /** The first punch after registration: as written it records an Out Time and leaves In
      Time empty; the intended rule records the In Time and leaves Out Time empty. */
  lemma FirstPunchAfterRegistration(rows: seq<FaceRow>, name: string, role: string, idNumber: string,
                                    email: string, registered: Clock, now: Clock)
    requires !Listed(rows, name)
    ensures var sheet := rows + [Persisted(NewRow(name, role, idNumber, email, registered.date))];
      && PunchAsWritten(sheet, name, now)[|rows|].inTime == Missing
      && PunchAsWritten(sheet, name, now)[|rows|].outTime == At(now.time)
      && Punch(sheet, name, now)[|rows|].inTime == At(now.time)
      && Punch(sheet, name, now)[|rows|].outTime == Missing
  {
    var sheet := rows + [Persisted(NewRow(name, role, idNumber, email, registered.date))];
    assert sheet[|rows|].name == name;
    assert FirstRow(sheet, name) == |rows|;
  }

  // ---------------------------------------------------------------------------------------
  // recognize_faces (app.py:71-89)

  /** What face_recognition reports for one face in the frame against each known face: its
      distance (`face_distance`) and whether `compare_faces` calls it a match. */
  datatype Probe = Probe(distances: seq<real>, matches: seq<bool>)

  datatype Label = Known(name: string) | Unknown

  /** `compare_faces`' default tolerance. */
  const Tolerance: real := 0.6

  predicate Fits(p: Probe, names: seq<string>) {
    |p.distances| == |names| && |p.matches| == |names|
  }

  /** `np.argmin`: the first index of the smallest distance. */
  function ArgMin(d: seq<real>): (k: nat)
    requires |d| > 0
    ensures k < |d|
    ensures forall j :: 0 <= j < |d| ==> d[k] <= d[j]
    ensures forall j :: 0 <= j < k ==> d[j] > d[k]
  {
    if |d| == 1 then 0
    else
      var k := ArgMin(d[..|d| - 1]);
      if d[|d| - 1] < d[k] then |d| - 1 else k
  }

  /** The label of one face (app.py:78-83); defined only when there is a known face, since
      `np.argmin` of an empty list raises. */
  function Identify(p: Probe, names: seq<string>): (l: Label)
    requires Fits(p, names) && |names| > 0
    ensures l.Known? ==>
              exists k :: 0 <= k < |names| && l.name == names[k] && p.matches[k] &&
                (forall j :: 0 <= j < |names| ==> p.distances[k] <= p.distances[j]) &&
                (forall j :: 0 <= j < k ==> p.distances[j] > p.distances[k])
    ensures l == Unknown ==>
              exists k :: 0 <= k < |names| && !p.matches[k] &&
                (forall j :: 0 <= j < |names| ==> p.distances[k] <= p.distances[j]) &&
                (forall j :: 0 <= j < k ==> p.distances[j] > p.distances[k])
  {
    var k := ArgMin(p.distances);
    if p.matches[k] then Known(names[k]) else Unknown
  }

  /** A sequence has one first minimum. */
  lemma FirstMinimumIsUnique(d: seq<real>, a: nat, b: nat)
    requires a < |d| && b < |d|
    requires forall j :: 0 <= j < |d| ==> d[a] <= d[j] && d[b] <= d[j]
    requires forall j :: 0 <= j < a ==> d[j] > d[a]
    requires forall j :: 0 <= j < b ==> d[j] > d[b]
    ensures a == b
  {
    assert d[a] <= d[b] && d[b] <= d[a];
  }

  /** A face is named after the closest known face, and only when that face is flagged as a
      match; a flagged face that is not the closest is ignored. */
  lemma IdentifyPicksClosest(p: Probe, names: seq<string>)
    requires Fits(p, names) && |names| > 0
    ensures Identify(p, names).Known? ==>
              exists k :: 0 <= k < |names| && names[k] == Identify(p, names).name && p.matches[k] &&
                          (forall j :: 0 <= j < |names| ==> p.distances[k] <= p.distances[j]) &&
                          (forall j :: 0 <= j < k ==> p.distances[j] > p.distances[k])
    ensures Identify(p, names) == Unknown <==>
              exists k :: 0 <= k < |names| && !p.matches[k] &&
                          (forall j :: 0 <= j < |names| ==> p.distances[k] <= p.distances[j]) &&
                          (forall j :: 0 <= j < k ==> p.distances[j] > p.distances[k])
  {
    var k := ArgMin(p.distances);
    if Identify(p, names) == Unknown {
      assert !p.matches[k];
    } else {
      assert p.matches[k];
      forall k' | 0 <= k' < |names| && (forall j :: 0 <= j < |names| ==> p.distances[k'] <= p.distances[j]) &&
                  (forall j :: 0 <= j < k' ==> p.distances[j] > p.distances[k'])
        ensures k' == k
      {
        FirstMinimumIsUnique(p.distances, k, k');
      }
    }
  }

  /** With the flags `compare_faces` computes (distance within the tolerance), a face is
      known exactly when some known face lies within the tolerance. */
  lemma IdentifyWithTolerance(p: Probe, names: seq<string>)
    requires Fits(p, names) && |names| > 0
    requires forall i :: 0 <= i < |names| ==> p.matches[i] == (p.distances[i] <= Tolerance)
    ensures Identify(p, names).Known? <==> exists i :: 0 <= i < |names| && p.distances[i] <= Tolerance
  {
    var k := ArgMin(p.distances);
    if exists i :: 0 <= i < |names| && p.distances[i] <= Tolerance {
      var i :| 0 <= i < |names| && p.distances[i] <= Tolerance;
      assert p.distances[k] <= p.distances[i];
    }
  }

  /** The label of each face of the frame, in frame order. */
  function Labels(faces: seq<Probe>, names: seq<string>): (ls: seq<Label>)
    requires forall p :: p in faces ==> Fits(p, names)
    requires faces == [] || |names| > 0
    ensures |ls| == |faces|
    ensures forall i :: 0 <= i < |faces| ==> ls[i] == Identify(faces[i], names)
  {
    if faces == [] then []
    else Labels(faces[..|faces| - 1], names) + [Identify(faces[|faces| - 1], names)]
  }

  /** The names of the recognised faces, in frame order. */
  function KnownNames(labels: seq<Label>): (ns: seq<string>)
    ensures forall n :: n in ns <==> exists i :: 0 <= i < |labels| && labels[i] == Known(n)
    ensures |ns| <= |labels|
  {
    if labels == [] then []
    else
      var init := KnownNames(labels[..|labels| - 1]);
      assert forall i :: 0 <= i < |labels| - 1 ==> labels[..|labels| - 1][i] == labels[i];
      match labels[|labels| - 1]
      case Known(n) => init + [n]
      case Unknown => init
  }

  /** Labelling one more face of the frame appends its label. */
  lemma LabelsStep(faces: seq<Probe>, names: seq<string>, i: nat)
    requires forall p :: p in faces ==> Fits(p, names)
    requires i < |faces| && |names| > 0
    ensures Labels(faces[..i + 1], names) == Labels(faces[..i], names) + [Identify(faces[i], names)]
  {
    assert faces[..i + 1][..i] == faces[..i];
  }

  /** The names of two parts of a frame, joined, are the names of the whole frame: recognised
      faces are punched in frame order. */
  lemma {:induction false} KnownNamesOfConcat(a: seq<Label>, b: seq<Label>)
    ensures KnownNames(a + b) == KnownNames(a) + KnownNames(b)
  {
    if b != [] {
      var init := b[..|b| - 1];
      assert (a + b)[..|a + b| - 1] == a + init;
      KnownNamesOfConcat(a, init);
    } else {
      assert a + b == a;
    }
  }

  /** The sheet after punching each name in turn. */
  function PunchAll(rows: seq<FaceRow>, names: seq<string>, now: Clock): (r: seq<FaceRow>)
    ensures |r| == |rows|
  {
    if names == [] then rows
    else Punch(PunchAll(rows, names[..|names| - 1], now), names[|names| - 1], now)
  }

  /** Punching a list of names keeps the row count and leaves every row of another name as it
      was: attendance changes only for matched faces. */
  lemma {:induction false} PunchAllTouchesOnlyNamed(rows: seq<FaceRow>, names: seq<string>, now: Clock)
    ensures |PunchAll(rows, names, now)| == |rows|
    ensures forall i :: 0 <= i < |rows| && rows[i].name !in names ==> PunchAll(rows, names, now)[i] == rows[i]
  {
    if names != [] {
      var init := names[..|names| - 1];
      PunchAllTouchesOnlyNamed(rows, init, now);
      var mid := PunchAll(rows, init, now);
      PunchSpec(mid, names[|names| - 1], now);
      forall i | 0 <= i < |rows| && rows[i].name !in names
        ensures PunchAll(rows, names, now)[i] == rows[i]
      {
        assert rows[i].name !in init;
        assert mid[i] == rows[i];
      }
    }
  }

  /** Only names read off recognised faces are punched: a frame without a known face leaves
      the sheet as it was. */
  lemma {:induction false} UnknownFacesPunchNothing(rows: seq<FaceRow>, labels: seq<Label>, now: Clock)
    requires forall i :: 0 <= i < |labels| ==> labels[i] == Unknown
    ensures PunchAll(rows, KnownNames(labels), now) == rows
  {
    if labels != [] {
      UnknownFacesPunchNothing(rows, labels[..|labels| - 1], now);
    }
  }

  // ---------------------------------------------------------------------------------------
  // load_known_faces (app.py:18-30)

  /** The rows whose face file exists, in sheet order. */
  function Loadable(rows: seq<FaceRow>, files: map<string, Embedding>): (r: seq<FaceRow>)
    ensures forall x :: x in r <==> x in rows && x.faceId in files
    ensures |r| <= |rows|
  {
    if rows == [] then []
    else
      var init := Loadable(rows[..|rows| - 1], files);
      var last := rows[|rows| - 1];
      assert forall x :: x in rows <==> x in rows[..|rows| - 1] || x == last;
      if last.faceId in files then init + [last] else init
  }

  /** Each row whose face file exists is loaded as often as the sheet holds it, and no other row. */
  lemma {:induction false} LoadableCounts(rows: seq<FaceRow>, files: map<string, Embedding>)
    ensures forall x :: multiset(Loadable(rows, files))[x] == if x.faceId in files then multiset(rows)[x] else 0
  {
    if rows != [] {
      LoadableCounts(rows[..|rows| - 1], files);
      assert rows == rows[..|rows| - 1] + [rows[|rows| - 1]];
    }
  }

  /** Loading a sheet in two parts and joining the results loads the whole sheet: the rows keep
      their sheet order. */
  lemma {:induction false} LoadableOfConcat(a: seq<FaceRow>, b: seq<FaceRow>, files: map<string, Embedding>)
    ensures Loadable(a + b, files) == Loadable(a, files) + Loadable(b, files)
  {
    if b != [] {
      var init := b[..|b| - 1];
      assert (a + b)[..|a + b| - 1] == a + init;
      assert b == init + [b[|b| - 1]];
      LoadableOfConcat(a, init, files);
    } else {
      assert a + b == a;
    }
  }

  /** The registration sheet and the face files. */
  class FaceRegistry {
    /** face_data.csv, as the CSV reader returns it. */
    var rows: seq<FaceRow>
    /** faces/<face id>.npy. */
    var faceFiles: map<string, Embedding>

    ghost predicate Valid()
      reads this
    {
      Stored(rows)
    }

    /** The sheet and face files found at start-up (app.py:13-15 creates an empty sheet). */
    constructor (rows: seq<FaceRow>, faceFiles: map<string, Embedding>)
      requires Stored(rows)
      ensures Valid() && this.rows == rows && this.faceFiles == faceFiles
    {
      this.rows := rows;
      this.faceFiles := faceFiles;
    }

    /** `save_new_face` (app.py:33-49): save the encoding under name_id, append one row with
        no In Time and no Out Time. */
    method SaveNewFace(name: string, role: string, idNumber: string, email: string,
                       encoding: Embedding, now: Clock)
      requires Valid()
      modifies this
      ensures Valid()
      ensures faceFiles == old(faceFiles)[FaceId(name, idNumber) := encoding]
      ensures rows == old(rows) + [Persisted(NewRow(name, role, idNumber, email, now.date))]
      ensures rows[|rows| - 1].faceId == name + "_" + idNumber
      ensures IsBlank(rows[|rows| - 1].inTime) && IsBlank(rows[|rows| - 1].outTime)
    {
      var faceId := FaceId(name, idNumber);
      faceFiles := faceFiles[faceId := encoding];
      rows := rows + [Persisted(NewRow(name, role, idNumber, email, now.date))];
    }

    /** `update_attendance` with the intended In Time test. */
    method UpdateAttendance(name: string, now: Clock)
      requires Valid()
      modifies this
      ensures Valid() && faceFiles == old(faceFiles)
      ensures rows == Punch(old(rows), name, now)
    {
      PunchKeepsStored(rows, name, now);
      rows := Punch(rows, name, now);
    }

    /** `recognize_faces` over the faces found in one frame; None when there is a face but no
        known face, where `np.argmin` raises before anything is written. */
    method RecognizeFaces(faces: seq<Probe>, names: seq<string>, now: Clock) returns (labels: Option<seq<Label>>)
      requires Valid()
      requires forall p :: p in faces ==> Fits(p, names)
      modifies this
      ensures Valid() && faceFiles == old(faceFiles)
      ensures labels.None? <==> faces != [] && names == []
      ensures labels.None? ==> rows == old(rows)
      ensures labels.Some? ==>
                && labels.value == Labels(faces, names)
                && rows == PunchAll(old(rows), KnownNames(labels.value), now)
      ensures |rows| == |old(rows)|
      ensures labels.Some? ==>
                forall i :: 0 <= i < |rows| && old(rows)[i].name !in KnownNames(labels.value) ==> rows[i] == old(rows)[i]
    {
      if faces != [] && names == [] {
        return None;
      }
      var out: seq<Label> := [];
      var i := 0;
      while i < |faces|
        invariant 0 <= i <= |faces|
        invariant Valid() && faceFiles == old(faceFiles)
        invariant out == Labels(faces[..i], names)
        invariant rows == PunchAll(old(rows), KnownNames(out), now)
      {
        LabelsStep(faces, names, i);
        var tag := Identify(faces[i], names);
        KnownNamesOfConcat(out, [tag]);
        assert KnownNames([tag]) == if tag.Known? then [tag.name] else [];
        if tag.Known? {
          UpdateAttendance(tag.name, now);
        }
        out := out + [tag];
        i := i + 1;
      }
      assert faces[..i] == faces;
      PunchAllTouchesOnlyNamed(old(rows), KnownNames(out), now);
      return Some(out);
    }

    /** `load_known_faces`: the names and encodings of the rows whose face file exists, as
        two lists paired by position. */
    method LoadKnownFaces() returns (encodings: seq<Embedding>, names: seq<string>)
      ensures |encodings| == |names| == |Loadable(rows, faceFiles)|
      ensures forall i :: 0 <= i < |names| ==>
                names[i] == Loadable(rows, faceFiles)[i].name &&
                encodings[i] == faceFiles[Loadable(rows, faceFiles)[i].faceId]
    {
      encodings, names := [], [];
      var i := 0;
      while i < |rows|
        invariant 0 <= i <= |rows|
        invariant |encodings| == |names| == |Loadable(rows[..i], faceFiles)|
        invariant forall j :: 0 <= j < |names| ==>
                    names[j] == Loadable(rows[..i], faceFiles)[j].name &&
                    encodings[j] == faceFiles[Loadable(rows[..i], faceFiles)[j].faceId]
      {
        assert rows[..i + 1][..i] == rows[..i];
        var row := rows[i];
        if row.faceId in faceFiles {
          encodings := encodings + [faceFiles[row.faceId]];
          names := names + [row.name];
        }
        i := i + 1;
      }
      assert rows[..i] == rows;
    }
  }
}
