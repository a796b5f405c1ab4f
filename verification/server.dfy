/** The decisions the API route handlers make on plain data: the guards that
    refuse a request and what each accepted request does to the store, to the
    last parse result, or to the names of the files it sends. A handler here
    takes the loaded store (and the last parse result, where it uses it) and
    returns the refusal or what it writes and answers. */
module Server {
  import opened Wrappers
  import opened Seqs
  import opened Text
  import opened JsObject
  import opened Records
  import opened DataManager
  import opened PdfParser
  import opened ZipNames

  /** A refused request: the HTTP status and the `error` text of the body. */
  datatype ApiError = ApiError(status: nat, message: string)

  const CLASS_NAME_REQUIRED := "Class name is required"
  const CLASS_EXISTS := "Class already exists"
  const STUDENT_REQUIRED := "Student name and info are required"
  const NO_FILE := "No file uploaded"
  const FILE_AND_CLASS_REQUIRED := "File and class name are required"
  const NO_VALID_STUDENTS := "No valid students found in class. Students need school number and at least 2 name parts."
  const NO_RESULTS := "No parse results available"
  const REPORT_NOT_FOUND := "Report not found"

  // ---------------------------------------------------------------- classes

  /** `POST /api/classes`: a missing or empty name is refused, so is a class
      that already exists; otherwise the class is added, last, with an empty
      roster. */
  function CreateClass(data: Store, className: string): (r: Result<Store, ApiError>)
    ensures className == "" ==> r == Failure(ApiError(400, CLASS_NAME_REQUIRED))
    ensures className != "" && className in data.values ==> r == Failure(ApiError(400, CLASS_EXISTS))
    ensures r.Success? <==> className != "" && className !in data.values
    ensures r.Success? ==>
      && GetClasses(r.value) == GetClasses(data) + [className]
      && GetStudentsByClass(r.value, className).values == map[]
      && forall c :: c in data.values ==> c in r.value.values && r.value.values[c] == data.values[c]
  {
    if className == "" then Failure(ApiError(400, CLASS_NAME_REQUIRED))
    else if className in data.values then Failure(ApiError(400, CLASS_EXISTS))
    else Success(SaveClass(data, className, Empty()))
  }

  // ---------------------------------------------------------------- students

  /** `POST /api/classes/:className/students`: a missing name or record is
      refused; otherwise the student is saved (creating the class). */
  function AddStudent(data: Store, className: string, studentName: string, info: Option<StudentInfo>): (r: Result<Store, ApiError>)
    ensures r.Failure? <==> studentName == "" || info.None?
    ensures r.Failure? ==> r.error == ApiError(400, STUDENT_REQUIRED)
    ensures r.Success? ==>
      var roster := GetStudentsByClass(r.value, className);
      studentName in roster.values && roster.values[studentName] == info.value
    ensures r.Success? ==> r.value == SaveStudent(data, className, studentName, info.value)
    ensures r.Success? ==> forall n :: n != studentName ==>
      && (n in GetStudentsByClass(r.value, className).values <==> n in GetStudentsByClass(data, className).values)
      && (n in GetStudentsByClass(data, className).values ==>
            GetStudentsByClass(r.value, className).values[n] == GetStudentsByClass(data, className).values[n])
    ensures r.Success? ==> forall c :: c != className ==>
      && (c in r.value.values <==> c in data.values)
      && (c in data.values ==> r.value.values[c] == data.values[c])
  {
    if studentName == "" || info.None? then Failure(ApiError(400, STUDENT_REQUIRED))
    else Success(SaveStudent(data, className, studentName, info.value))
  }

  /** `PUT /api/classes/:className/students/:oldName`: when the name changed,
      the old entry is deleted first (nothing is written when the class does
      not exist), then the record is saved under the new name. The new name
      keeps its place when it is still in the roster after the deletion and
      goes last otherwise; a class that did not exist is created last. */
  function UpdateStudent(data: Store, className: string, oldName: string, newName: string, info: StudentInfo): (r: Store)
    ensures
      var before := GetStudentsByClass(data, className).values;
      var kept := if oldName != newName then before - {oldName} else before;
      GetStudentsByClass(r, className).values == kept[newName := info]
    ensures
      var kept := KeptKeys(GetStudentsByClass(data, className).keys, oldName, newName);
      GetStudentsByClass(r, className).keys == if newName in kept then kept else kept + [newName]
    ensures className in data.values ==> r.keys == data.keys
    ensures className !in data.values ==> r.keys == data.keys + [className]
    ensures forall c :: c != className ==> (c in r.values <==> c in data.values)
    ensures forall c :: c != className && c in data.values ==> r.values[c] == data.values[c]
  {
    var afterDelete := if oldName != newName then Stored(data, DeleteStudent(data, className, oldName)) else data;
    SaveStudent(afterDelete, className, newName, info)
  }

  /** The roster's names left after the deletion step of an update. */
  function KeptKeys(keys: seq<string>, oldName: string, newName: string): seq<string> {
    if oldName != newName then Filter(keys, Other(oldName)) else keys
  }

  /** A rename to a fresh name keeps the roster's size, and the renamed
      student moves to the end of the roster's order (which is the order the
      PDF matcher tries students in). */
  lemma RenameMovesLast(data: Store, className: string, oldName: string, newName: string, info: StudentInfo)
    requires className in data.values
    requires oldName in data.values[className].values && newName !in data.values[className].values
    ensures
      var roster := GetStudentsByClass(UpdateStudent(data, className, oldName, newName, info), className);
      && roster.keys == Filter(data.values[className].keys, Other(oldName)) + [newName]
      && |roster.keys| == |data.values[className].keys|
  {
    var before := data.values[className];
    var afterDelete := Stored(data, DeleteStudent(data, className, oldName));
    var kept := afterDelete.values[className];
    assert newName !in kept.values;
    var p := Other(oldName);
    FilterDistinct(before.keys, p);
    DeleteOneKey(before.keys, oldName);
  }

  /** Filtering one present key out of a duplicate-free list shortens it by
      exactly one. */
  lemma {:induction false} DeleteOneKey(keys: seq<string>, k: string)
    requires Distinct(keys) && k in keys
    ensures |Filter(keys, Other(k))| == |keys| - 1
    decreases |keys|
  {
    assert keys == [keys[0]] + keys[1..];
    var rest := keys[1..];
    assert Distinct(rest) by {
      forall i, j | 0 <= i < j < |rest| ensures rest[i] != rest[j] {
        assert rest[i] == keys[i + 1] && rest[j] == keys[j + 1];
      }
    }
    if keys[0] == k {
      assert k !in rest by {
        forall j | 0 <= j < |rest| ensures rest[j] != k {
          assert rest[j] == keys[j + 1];
        }
      }
      FilterAll(rest, Other(k));
    } else {
      DeleteOneKey(rest, k);
    }
  }

  // ---------------------------------------------------------------- Excel import

  /** One row of the first worksheet, as the sheet reader gives it: the text
      of each non-empty cell by its column header. */
  datatype Row = Row(cells: map<string, string>)

  const NAME_COLUMN := "Ad Soyad"
  const SCHOOL_NO_COLUMN := "Okul No"
  const MOTHER_NAME_COLUMN := "Anne Adı Soyadı"
  const MOTHER_EMAIL_COLUMN := "Anne E-posta"
  const MOTHER_PHONE_COLUMN := "Anne Telefon"
  const FATHER_NAME_COLUMN := "Baba Adı Soyadı"
  const FATHER_EMAIL_COLUMN := "Baba E-posta"
  const FATHER_PHONE_COLUMN := "Baba Telefon"

  /** `String(row[column] || "").trim()` */
  function Cell(row: Row, column: string): (r: string)
    ensures Unpadded(r)
    ensures column !in row.cells ==> r == ""
    ensures column in row.cells ==> r == Trim(row.cells[column])
  {
    Trim(if column in row.cells then row.cells[column] else "")
  }

  /** What the import reads from a row: the trimmed name and school number,
      and the record the row would be saved as. */
  datatype RowFields = RowFields(name: string, schoolNo: string, info: StudentInfo)

  function ReadRow(row: Row): (f: RowFields)
    ensures f.name == Cell(row, NAME_COLUMN) && f.schoolNo == Cell(row, SCHOOL_NO_COLUMN)
    ensures f.info.schoolNo == Some(f.schoolNo)
  {
    var schoolNo := Cell(row, SCHOOL_NO_COLUMN);
    RowFields(
      Cell(row, NAME_COLUMN), schoolNo,
      StudentInfo(
        Some(schoolNo),
        Cell(row, MOTHER_NAME_COLUMN), Cell(row, MOTHER_EMAIL_COLUMN), Cell(row, MOTHER_PHONE_COLUMN),
        Cell(row, FATHER_NAME_COLUMN), Cell(row, FATHER_EMAIL_COLUMN), Cell(row, FATHER_PHONE_COLUMN)))
  }

  /** The rows as read, in sheet order. */
  function ReadRows(rows: seq<Row>): (fs: seq<RowFields>)
    ensures |fs| == |rows|
    ensures forall k :: 0 <= k < |rows| ==> fs[k] == ReadRow(rows[k])
  {
    seq(|rows|, k requires 0 <= k < |rows| => ReadRow(rows[k]))
  }

  /** A row is imported when its trimmed name and school number are both
      non-empty and neither is the text "undefined". */
  predicate Accepted(f: RowFields) {
    f.name != "" && f.schoolNo != "" && f.name != "undefined" && f.schoolNo != "undefined"
  }

  /** `Accepted` as a filter. */
  function AcceptedRow(): RowFields -> bool {
    f => Accepted(f)
  }

  /** Reference meaning of the import: the rows applied one by one to the
      roster, each accepted row writing its student. */
  function MergeRows(students: Roster, rows: seq<RowFields>): Roster
    decreases |rows|
  {
    if |rows| == 0 then students
    else
      var merged := MergeRows(students, rows[..|rows| - 1]);
      var row := rows[|rows| - 1];
      if Accepted(row) then Assign(merged, row.name, row.info) else merged
  }

  /** The import loop of `POST /api/classes/:className/upload-excel`: merges
      the rows into the roster and counts the accepted rows. */
  method ImportRows(students: Roster, rows: seq<RowFields>) returns (merged: Roster, count: nat)
    ensures merged == MergeRows(students, rows)
    ensures count == |Filter(rows, AcceptedRow())|
  {
    merged := students;
    count := 0;
    var i := 0;
    while i < |rows|
      invariant i <= |rows|
      invariant merged == MergeRows(students, rows[..i])
      invariant count == |Filter(rows[..i], AcceptedRow())|
    {
      var row := rows[i];
      assert rows[..i + 1][..i] == rows[..i];
      FilterConcat(rows[..i], [row], AcceptedRow());
      assert rows[..i + 1] == rows[..i] + [row];
      if Accepted(row) {
        merged := Assign(merged, row.name, row.info);
        count := count + 1;
      }
      i := i + 1;
    }
    assert rows[..i] == rows;
  }

  /** The last accepted row that names `name`, if any. */
  function LastRowFor(rows: seq<RowFields>, name: string): (r: Option<nat>)
    ensures r.Some? ==>
      && r.value < |rows| && Accepted(rows[r.value]) && rows[r.value].name == name
      && forall j :: r.value < j < |rows| ==> !(Accepted(rows[j]) && rows[j].name == name)
    ensures r.None? ==> forall j :: 0 <= j < |rows| ==> !(Accepted(rows[j]) && rows[j].name == name)
    decreases |rows|
  {
    if |rows| == 0 then None
    else
      var row := rows[|rows| - 1];
      if Accepted(row) && row.name == name then Some(|rows| - 1)
      else
        var r := LastRowFor(rows[..|rows| - 1], name);
        assert forall j :: 0 <= j < |rows| - 1 ==> rows[..|rows| - 1][j] == rows[j];
        r
  }

  /** What the import leaves in the roster: the last accepted row for a name
      decides that student's record; a student no accepted row names keeps
      the record it had; nobody else is added; the existing students keep
      their order ahead of the new ones. */
  lemma {:induction false} MergeRowsMeaning(students: Roster, rows: seq<RowFields>, name: string)
    ensures
      var merged := MergeRows(students, rows);
      && (name in merged.values <==> name in students.values || LastRowFor(rows, name).Some?)
      && (LastRowFor(rows, name).Some? ==> merged.values[name] == rows[LastRowFor(rows, name).value].info)
      && (LastRowFor(rows, name).None? && name in students.values ==> merged.values[name] == students.values[name])
      && |students.keys| <= |merged.keys| && merged.keys[..|students.keys|] == students.keys
    decreases |rows|
  {
    if |rows| > 0 {
      var init := rows[..|rows| - 1];
      MergeRowsMeaning(students, init, name);
      var row := rows[|rows| - 1];
      if !(Accepted(row) && row.name == name) {
        assert LastRowFor(rows, name) == LastRowFor(init, name);
        if LastRowFor(init, name).Some? {
          assert rows[LastRowFor(init, name).value] == init[LastRowFor(init, name).value];
        }
      }
      var prev := MergeRows(students, init);
      if Accepted(row) {
        var merged := MergeRows(students, rows);
        assert merged.keys[..|students.keys|] == prev.keys[..|students.keys|];
      }
    }
  }

  /** The result of a successful upload: the store written and the count. */
  datatype Imported = Imported(store: Store, count: nat)

  /** `POST /api/classes/:className/upload-excel` once the workbook is read:
      no file is refused; otherwise the merged roster replaces the class (or
      creates it) and the number of accepted rows is answered. */
  method UploadExcel(data: Store, className: string, file: Option<seq<Row>>) returns (r: Result<Imported, ApiError>)
    ensures file.None? ==> r == Failure(ApiError(400, NO_FILE))
    ensures file.Some? ==> r.Success?
    ensures r.Success? ==>
      var rows := ReadRows(file.value);
      && r.value.count == |Filter(rows, AcceptedRow())|
      && r.value.store == SaveClass(data, className, MergeRows(GetStudentsByClass(data, className), rows))
  {
    if file.None? {
      return Failure(ApiError(400, NO_FILE));
    }
    var merged, count := ImportRows(GetStudentsByClass(data, className), ReadRows(file.value));
    r := Success(Imported(SaveClass(data, className, merged), count));
  }

  // ---------------------------------------------------------------- PDF parsing

  /** The uploaded PDF: one the PDF library cannot load (the reason is its
      error message), or the page texts of a loaded document (None where the
      text of a page could not be extracted). */
  datatype PdfFile = Unreadable(reason: string) | Document(pages: seq<Option<string>>)

  /** What the response lists of a report (everything but the bytes). */
  datatype ReportView = ReportView(
    id: string, studentName: string, matchedText: string,
    fileNameSchoolNo: string, fileNameStudent: string, pageNumber: nat)

  datatype ParseResponse = ParseResponse(
    foundCount: nat,
    missingCount: nat,
    missingStudents: seq<string>,
    hasDuplicates: bool,
    totalPages: nat,
    reports: seq<ReportView>)

  /** An accepted parse: the result kept for the download routes, and the
      response. */
  datatype Parsed = Parsed(kept: ParseResult, response: ParseResponse)

  function View(r: Report): ReportView {
    ReportView(r.id, r.studentName, r.matchedText, r.fileNameSchoolNo, r.fileNameStudent, r.pageNumber)
  }

  /** The response of an accepted parse: the counts are the lengths of the
      two lists, and the reports are listed in order without their bytes. */
  function Respond(result: ParseResult): (resp: ParseResponse)
    ensures resp.foundCount == |result.foundReports|
    ensures resp.missingCount == |result.missingStudents|
    ensures resp.missingStudents == result.missingStudents
    ensures resp.hasDuplicates == result.hasDuplicates
    ensures resp.totalPages == result.totalPages
    ensures |resp.reports| == resp.foundCount
    ensures forall k :: 0 <= k < |resp.reports| ==> resp.reports[k] == View(result.foundReports[k])
  {
    var views := seq(|result.foundReports|, k requires 0 <= k < |result.foundReports| => View(result.foundReports[k]));
    ParseResponse(
      |result.foundReports|, |result.missingStudents|, result.missingStudents,
      result.hasDuplicates, result.totalPages, views)
  }

  /** `POST /api/parse-pdf`: a missing file or class name is refused, so is a
      class none of whose students qualifies; a PDF that cannot be loaded
      fails with the library's message; otherwise the result is kept and
      answered. */
  function ParsePdf(data: Store, file: Option<PdfFile>, className: string, uuid: nat -> string): (r: Result<Parsed, ApiError>)
    ensures file.None? || className == "" ==> r == Failure(ApiError(400, FILE_AND_CLASS_REQUIRED))
    ensures file.Some? && className != "" && NoneQualifies(GetStudentsByClass(data, className)) ==>
      r == Failure(ApiError(400, NO_VALID_STUDENTS))
    ensures file.Some? && className != "" && !NoneQualifies(GetStudentsByClass(data, className)) ==>
      match file.value
      case Unreadable(reason) => r == Failure(ApiError(500, reason))
      case Document(pages) =>
        r == Success(Parsed(
          ParsePdfForStudents(PrepareStudentInfo(GetStudentsByClass(data, className)), pages, uuid),
          Respond(ParsePdfForStudents(PrepareStudentInfo(GetStudentsByClass(data, className)), pages, uuid))))
  {
    if file.None? || className == "" then Failure(ApiError(400, FILE_AND_CLASS_REQUIRED))
    else
      var studentInfo := PrepareStudentInfo(GetStudentsByClass(data, className));
      PrepareEmpty(GetStudentsByClass(data, className));
      if |studentInfo.keys| == 0 then Failure(ApiError(400, NO_VALID_STUDENTS))
      else
        match file.value
        case Unreadable(reason) => Failure(ApiError(500, reason))
        case Document(pages) =>
          var result := ParsePdfForStudents(studentInfo, pages, uuid);
          Success(Parsed(result, Respond(result)))
  }

  // ---------------------------------------------------------------- reports

  /** The reports whose id is not `id`. */
  function OtherId(id: string): Report -> bool {
    (r: Report) => r.id != id
  }

  /** `DELETE /api/reports/:reportId`: without a kept result the request is
      refused; otherwise every report with that id is dropped, the others
      keep their order, and nothing else of the result changes (not even
      `hasDuplicates`). */
  function DeleteReport(kept: Option<ParseResult>, id: string): (r: Result<ParseResult, ApiError>)
    ensures kept.None? <==> r.Failure?
    ensures r.Failure? ==> r.error == ApiError(404, NO_RESULTS)
    ensures r.Success? ==>
      && Subseq(r.value.foundReports, kept.value.foundReports)
      && (forall x :: x in r.value.foundReports <==> x in kept.value.foundReports && x.id != id)
      && (forall x :: Count(r.value.foundReports, x) == (if x.id != id then Count(kept.value.foundReports, x) else 0))
      && r.value.missingStudents == kept.value.missingStudents
      && r.value.hasDuplicates == kept.value.hasDuplicates
      && r.value.totalPages == kept.value.totalPages
  {
    match kept
    case None => Failure(ApiError(404, NO_RESULTS))
    case Some(res) => Success(res.(foundReports := Filter(res.foundReports, OtherId(id))))
  }

  /** Deleting an id no report carries changes nothing; deleting twice is
      deleting once; with distinct ids, deleting a present id removes exactly
      one report. */
  lemma DeleteReportCounts(res: ParseResult, id: string)
    ensures (forall k :: 0 <= k < |res.foundReports| ==> res.foundReports[k].id != id) ==>
      DeleteReport(Some(res), id) == Success(res)
    ensures DeleteReport(Some(DeleteReport(Some(res), id).value), id) == DeleteReport(Some(res), id)
    ensures DistinctIds(res.foundReports) && (exists k :: 0 <= k < |res.foundReports| && res.foundReports[k].id == id) ==>
      |DeleteReport(Some(res), id).value.foundReports| == |res.foundReports| - 1
  {
    var reports := res.foundReports;
    if forall k :: 0 <= k < |reports| ==> reports[k].id != id {
      FilterAll(reports, OtherId(id));
      assert res.(foundReports := reports) == res;
    }
    var once := Filter(reports, OtherId(id));
    FilterAll(once, OtherId(id));
    if DistinctIds(reports) && exists k :: 0 <= k < |reports| && reports[k].id == id {
      DeleteOneReport(reports, id);
    }
  }

  /** No two reports share an id. */
  ghost predicate DistinctIds(reports: seq<Report>) {
    forall i, j :: 0 <= i < j < |reports| ==> reports[i].id != reports[j].id
  }

  lemma {:induction false} DeleteOneReport(reports: seq<Report>, id: string)
    requires DistinctIds(reports)
    requires exists k :: 0 <= k < |reports| && reports[k].id == id
    ensures |Filter(reports, OtherId(id))| == |reports| - 1
    decreases |reports|
  {
    assert reports == [reports[0]] + reports[1..];
    var rest := reports[1..];
    assert DistinctIds(rest) by {
      forall i, j | 0 <= i < j < |rest| ensures rest[i].id != rest[j].id {
        assert rest[i] == reports[i + 1] && rest[j] == reports[j + 1];
      }
    }
    if reports[0].id == id {
      assert forall x :: x in rest ==> OtherId(id)(x) by {
        forall j | 0 <= j < |rest| ensures rest[j].id != id {
          assert rest[j] == reports[j + 1];
        }
      }
      FilterAll(rest, OtherId(id));
    } else {
      var k :| 0 <= k < |reports| && reports[k].id == id;
      assert rest[k - 1].id == id;
      DeleteOneReport(rest, id);
    }
  }

  /** The first report carrying `id` (`Array.prototype.find`). */
  function FindReport(reports: seq<Report>, id: string): (r: Option<nat>)
    ensures r.Some? ==> r.value < |reports| && reports[r.value].id == id
    ensures r.Some? ==> forall j :: 0 <= j < r.value ==> reports[j].id != id
    ensures r.None? ==> forall j :: 0 <= j < |reports| ==> reports[j].id != id
    decreases |reports|
  {
    if |reports| == 0 then None
    else if reports[0].id == id then Some(0)
    else
      match FindReport(reports[1..], id)
      case None => None
      case Some(k) => Some(k + 1)
  }

  /** A file sent back: its bytes and the name it is offered under. */
  datatype Download = Download(bytes: PageBytes, fileName: string)

  /** `GET /api/download-pdf/:reportId`: the first report with that id, under
      its student file name. */
  function DownloadPdf(kept: Option<ParseResult>, id: string): (r: Result<Download, ApiError>)
    ensures kept.None? ==> r == Failure(ApiError(404, NO_RESULTS))
    ensures kept.Some? ==>
      (r == Failure(ApiError(404, REPORT_NOT_FOUND)) <==>
         forall j :: 0 <= j < |kept.value.foundReports| ==> kept.value.foundReports[j].id != id)
    ensures r.Success? ==>
      var k := FindReport(kept.value.foundReports, id);
      k.Some? && r.value == Download(kept.value.foundReports[k.value].pdfBytes, kept.value.foundReports[k.value].fileNameStudent)
  {
    match kept
    case None => Failure(ApiError(404, NO_RESULTS))
    case Some(res) =>
      match FindReport(res.foundReports, id)
      case None => Failure(ApiError(404, REPORT_NOT_FOUND))
      case Some(k) =>
        var report := res.foundReports[k];
        Success(Download(report.pdfBytes, report.fileNameStudent))
  }

  // ---------------------------------------------------------------- archive

  /** The file name a report is filed under in the archive: its school-number
      name in `schoolNo` mode, its student name in any other mode. */
  function ModeName(mode: string, r: Report): string {
    if mode == "schoolNo" then r.fileNameSchoolNo else r.fileNameStudent
  }

  /** The file names of the reports, in report order. */
  function ModeNames(reports: seq<Report>, mode: string): (names: seq<string>)
    ensures |names| == |reports|
    ensures forall k :: 0 <= k < |reports| ==> names[k] == ModeName(mode, reports[k])
  {
    seq(|reports|, k requires 0 <= k < |reports| => ModeName(mode, reports[k]))
  }

  /** One file of the archive. */
  datatype ZipEntry = ZipEntry(name: string, bytes: PageBytes)

  /** The archive sent back: its download name and its files in order. */
  datatype Archive = Archive(fileName: string, entries: seq<ZipEntry>)

  /** `GET /api/download-zip/:namingMode`: no archive without reports; else
      one file per report, in report order, with the report's bytes, under
      its file name for the mode or a numbered variant of it, no two files
      under the same name. */
  function DownloadZip(kept: Option<ParseResult>, mode: string): (r: Result<Archive, ApiError>)
    ensures r.Failure? <==> kept.None? || |kept.value.foundReports| == 0
    ensures r.Failure? ==> r.error == ApiError(404, NO_RESULTS)
    ensures r.Success? ==>
      && r.value.fileName == "reports_" + mode + ".zip"
      && |r.value.entries| == |kept.value.foundReports|
      && (forall k :: 0 <= k < |r.value.entries| ==>
            && r.value.entries[k].bytes == kept.value.foundReports[k].pdfBytes
            && NamedAfter(r.value.entries[k].name, ModeName(mode, kept.value.foundReports[k])))
      && forall i, j :: 0 <= i < j < |r.value.entries| ==> r.value.entries[i].name != r.value.entries[j].name
  {
    if kept.None? || |kept.value.foundReports| == 0 then Failure(ApiError(404, NO_RESULTS))
    else
      var reports := kept.value.foundReports;
      var names := ModeNames(reports, mode);
      var given := NameAllFresh(names).entries;
      NameAllFreshShape(names);
      Success(Archive("reports_" + mode + ".zip",
        seq(|reports|, k requires 0 <= k < |reports| => ZipEntry(given[k], reports[k].pdfBytes))))
  }

  /** The archive's file names are the corrected loop's names. */
  lemma ZipEntryNames(res: ParseResult, mode: string)
    requires |res.foundReports| > 0
    ensures forall k :: 0 <= k < |res.foundReports| ==>
      DownloadZip(Some(res), mode).value.entries[k].name == NameAllFresh(ModeNames(res.foundReports, mode)).entries[k]
  {
  }

  /** Wherever the route as written names the files apart, the archive uses
      its names; with file names already distinct, the file names
      themselves. */
  lemma DownloadZipNames(res: ParseResult, mode: string)
    requires |res.foundReports| > 0
    ensures Distinct(NameAll(ModeNames(res.foundReports, mode)).entries) ==>
      forall k :: 0 <= k < |res.foundReports| ==>
        DownloadZip(Some(res), mode).value.entries[k].name == NameAll(ModeNames(res.foundReports, mode)).entries[k]
    ensures Distinct(ModeNames(res.foundReports, mode)) ==>
      forall k :: 0 <= k < |res.foundReports| ==>
        DownloadZip(Some(res), mode).value.entries[k].name == ModeName(mode, res.foundReports[k])
  {
    var names := ModeNames(res.foundReports, mode);
    ZipEntryNames(res, mode);
    if Distinct(NameAll(names).entries) {
      NameAllFreshAgrees(names);
    }
    if Distinct(names) {
      NameAllKeepsDistinct(names);
      NameAllFreshAgrees(names);
    }
  }
}
