/** The page-to-student matching engine of `src/pdfParser.js`: preparing the
    roster, building the two search patterns per student, assigning each page
    to the first student whose pattern occurs on it, cutting the excerpt,
    naming the files and listing the students found on no page.

    The document is given as its page texts in order; None stands for a page
    whose text extraction threw. Report ids come from `uuid`, one per page
    index, and the single-page document cut from page i is `SinglePage(i)`. */
module PdfParser {
  import opened Wrappers
  import opened Seqs
  import opened Text
  import opened JsObject
  import opened TokenPattern
  import opened Records

  const EXACT_MATCH_LIMIT: nat := 10
  const CONTEXT_CHAR_LIMIT: nat := 10

  // ---------------------------------------------------------------- roster

  /** `prepared[fullName]`: the school number and the name's tokens. */
  datatype Prepared = Prepared(schoolNo: string, nameParts: seq<string>)

  /** `String(details['Okul No'] || '')` */
  function SchoolNoText(info: StudentInfo): string {
    info.schoolNo.GetOr("")
  }

  /** A student takes part in matching when the school number is usable and
      the trimmed name splits into at least two tokens. */
  predicate Qualifies(fullName: string, info: StudentInfo) {
    var schoolNo := SchoolNoText(info);
    schoolNo != "" && schoolNo != "undefined" && |Split(Trim(fullName))| >= 2
  }

  /** The students of `students` that qualify. */
  function Qualifying(students: Dict<StudentInfo>): string -> bool {
    n => n in students.values && Qualifies(n, students.values[n])
  }

  /** The prepared entry of a qualifying student. */
  function PrepareEntry(fullName: string, info: StudentInfo): Prepared {
    Prepared(SchoolNoText(info), Split(Trim(fullName)))
  }

  /** The loop of `prepareStudentInfo` over the first keys of the roster. */
  function PrepareKeys(students: Dict<StudentInfo>, keys: seq<string>): (r: Dict<Prepared>)
    requires Distinct(keys) && forall k :: k in keys ==> k in students.values
    ensures r.keys == Filter(keys, Qualifying(students))
    ensures forall n :: n in r.values ==> r.values[n] == PrepareEntry(n, students.values[n])
    decreases |keys|
  {
    if |keys| == 0 then Empty()
    else
      var init := keys[..|keys| - 1];
      var n := keys[|keys| - 1];
      assert keys == init + [n];
      assert Distinct(init);
      var acc := PrepareKeys(students, init);
      PrepareKeysStep(students, init, n, acc);
      if Qualifies(n, students.values[n]) then
        Assign(acc, n, PrepareEntry(n, students.values[n]))
      else acc
  }

  /** The key order after one more iteration of the loop. */
  lemma PrepareKeysStep(students: Dict<StudentInfo>, init: seq<string>, n: string, acc: Dict<Prepared>)
    requires n in students.values && n !in init
    requires acc.keys == Filter(init, Qualifying(students))
    ensures Qualifies(n, students.values[n]) ==>
      n !in acc.values && Filter(init + [n], Qualifying(students)) == acc.keys + [n]
    ensures !Qualifies(n, students.values[n]) ==>
      Filter(init + [n], Qualifying(students)) == acc.keys
  {
    FilterConcat(init, [n], Qualifying(students));
    assert n !in acc.keys;
    assert [n][1..] == [];
  }

  /** `prepareStudentInfo(classStudents)`: the qualifying students, in roster
      order, each with its school number unchanged and its name tokens. */
  function PrepareStudentInfo(students: Dict<StudentInfo>): (r: Dict<Prepared>)
    ensures forall n :: n in r.values <==> n in students.values && Qualifies(n, students.values[n])
    ensures r.keys == Filter(students.keys, Qualifying(students))
    ensures Subseq(r.keys, students.keys)
    ensures forall n :: n in r.values ==>
      && r.values[n].schoolNo == SchoolNoText(students.values[n])
      && r.values[n].nameParts == Split(Trim(n))
  {
    var r := PrepareKeys(students, students.keys);
    assert forall n :: n in r.values ==> r.values[n] == PrepareEntry(n, students.values[n]);
    r
  }

  /** No student of the roster qualifies. */
  ghost predicate NoneQualifies(students: Dict<StudentInfo>) {
    forall n :: n in students.values ==> !Qualifies(n, students.values[n])
  }

  /** The prepared roster is empty exactly when no student qualifies. */
  lemma PrepareEmpty(students: Dict<StudentInfo>)
    ensures |PrepareStudentInfo(students).keys| == 0 <==> NoneQualifies(students)
  {
    var r := PrepareStudentInfo(students);
    if |r.keys| > 0 {
      assert r.keys[0] in r.values;
    }
  }

  /** What every prepared entry satisfies: a non-empty name, a usable school
      number, and at least two tokens, each non-empty and without whitespace. */
  ghost predicate WellFormed(prepared: Dict<Prepared>) {
    forall n :: n in prepared.values ==>
      && n != ""
      && prepared.values[n].schoolNo != ""
      && prepared.values[n].schoolNo != "undefined"
      && |prepared.values[n].nameParts| >= 2
      && Tokens(prepared.values[n].nameParts)
  }

  /** Preparing any roster yields a well-formed prepared roster. */
  lemma PrepareWellFormed(students: Dict<StudentInfo>)
    ensures WellFormed(PrepareStudentInfo(students))
  {
    var r := PrepareStudentInfo(students);
    forall n | n in r.values
      ensures n != "" && |r.values[n].nameParts| >= 2 && Tokens(r.values[n].nameParts)
    {
      var t := Trim(n);
      assert |Split(t)| >= 2;
      assert t != [];
      SplitTokens(t);
    }
  }

  // ---------------------------------------------------------------- patterns

  /** `searchPatterns[fullName]`: the patterns to try, in order, and the
      school number. A pattern is its token sequence, joined by `\s*`. */
  datatype SearchInfo = SearchInfo(patterns: seq<seq<string>>, schoolNo: string)

  /** `nameParts.map(p => p.toLowerCase())` */
  function LowerAll(parts: seq<string>): (r: seq<string>)
    ensures |r| == |parts|
    ensures forall k :: 0 <= k < |parts| ==> r[k] == Lower(parts[k])
  {
    seq(|parts|, k requires 0 <= k < |parts| => Lower(parts[k]))
  }

  /** The forward pattern (the lower-cased tokens in order), then the reverse
      pattern (the same tokens reversed). */
  function PatternsFor(p: Prepared): SearchInfo {
    var forward := LowerAll(p.nameParts);
    SearchInfo([forward, Reverse(forward)], p.schoolNo)
  }

  /** The pattern table, in the order of the prepared roster. */
  function BuildPatterns(prepared: Dict<Prepared>): (table: Dict<SearchInfo>)
    ensures table.keys == prepared.keys
    ensures forall n :: n in table.values <==> n in prepared.values
    ensures forall n :: n in table.values ==>
      var parts := prepared.values[n].nameParts;
      && table.values[n].schoolNo == prepared.values[n].schoolNo
      && |table.values[n].patterns| == 2
      && |table.values[n].patterns[0]| == |parts|
      && (forall k :: 0 <= k < |parts| ==> table.values[n].patterns[0][k] == Lower(parts[k]))
      && table.values[n].patterns[1] == Reverse(table.values[n].patterns[0])
  {
    MapValues(prepared, PatternsFor)
  }

  /** Every pattern of the table built from a well-formed roster has at least
      two tokens, each non-empty and without whitespace, so greedy matching
      decides the regular expression (see `TokenPattern.LeftmostIsRegexMatch`). */
  lemma BuildPatternsTokens(prepared: Dict<Prepared>)
    requires WellFormed(prepared)
    ensures forall n, j :: n in BuildPatterns(prepared).values && 0 <= j < |BuildPatterns(prepared).values[n].patterns| ==>
      && |BuildPatterns(prepared).values[n].patterns[j]| >= 2
      && Tokens(BuildPatterns(prepared).values[n].patterns[j])
  {
    var table := BuildPatterns(prepared);
    forall n | n in table.values
      ensures Tokens(table.values[n].patterns[0]) && Tokens(table.values[n].patterns[1])
    {
      var parts := prepared.values[n].nameParts;
      var fwd := table.values[n].patterns[0];
      forall k | 0 <= k < |fwd| ensures |fwd[k]| > 0 && NoSpace(fwd[k]) {
        LowerNoSpace(parts[k]);
      }
      var rev := table.values[n].patterns[1];
      forall k | 0 <= k < |rev| ensures |rev[k]| > 0 && NoSpace(rev[k]) {
        assert rev[k] == fwd[|fwd| - 1 - k];
      }
    }
  }

  // ---------------------------------------------------------------- matching

  /** A page's match: the roster entry (index into the table's keys), which of
      its patterns matched, and where, in the lower-cased page text. */
  datatype Hit = Hit(entry: nat, pattern: nat, start: nat, end: nat)

  /** Some pattern of `pats` occurs in `lower`. */
  ghost predicate AnyFound(lower: string, pats: seq<seq<string>>) {
    exists k :: 0 <= k < |pats| && Leftmost(lower, pats[k]).Some?
  }

  /** The inner loop: the first of the patterns from index `j` on that occurs,
      with its leftmost match. */
  function MatchPatterns(lower: string, pats: seq<seq<string>>, j: nat): (r: Option<(nat, nat, nat)>)
    requires j <= |pats|
    ensures r.Some? ==>
      && j <= r.value.0 < |pats|
      && Leftmost(lower, pats[r.value.0]) == Some((r.value.1, r.value.2))
      && r.value.1 <= r.value.2 <= |lower|
      && forall k :: j <= k < r.value.0 ==> Leftmost(lower, pats[k]).None?
    ensures r.None? ==> forall k :: j <= k < |pats| ==> Leftmost(lower, pats[k]).None?
    decreases |pats| - j
  {
    if j == |pats| then None
    else
      match Leftmost(lower, pats[j])
      case Some((s, e)) => Some((j, s, e))
      case None => MatchPatterns(lower, pats, j + 1)
  }

  /** The patterns of the table's entry at index `e`. */
  function PatternsAt(table: Dict<SearchInfo>, e: nat): seq<seq<string>>
    requires e < |table.keys|
  {
    assert table.keys[e] in table.keys;
    table.values[table.keys[e]].patterns
  }

  /** The outer loop from entry `i` on: the first entry, in roster order,
      with a pattern that occurs; within it, the first such pattern. */
  function MatchEntries(table: Dict<SearchInfo>, lower: string, i: nat): (r: Option<Hit>)
    requires i <= |table.keys|
    ensures r.Some? ==>
      var h := r.value;
      && i <= h.entry < |table.keys|
      && h.pattern < |PatternsAt(table, h.entry)|
      && Leftmost(lower, PatternsAt(table, h.entry)[h.pattern]) == Some((h.start, h.end))
      && h.start <= h.end <= |lower|
      && (forall k :: 0 <= k < h.pattern ==> Leftmost(lower, PatternsAt(table, h.entry)[k]).None?)
      && (forall e :: i <= e < h.entry ==> !AnyFound(lower, PatternsAt(table, e)))
    ensures r.None? ==> forall e :: i <= e < |table.keys| ==> !AnyFound(lower, PatternsAt(table, e))
    decreases |table.keys| - i
  {
    if i == |table.keys| then None
    else
      var pats := PatternsAt(table, i);
      match MatchPatterns(lower, pats, 0)
      case Some((j, s, e)) => Some(Hit(i, j, s, e))
      case None => MatchEntries(table, lower, i + 1)
  }

  /** The student search for one page text: lower-case it once, then run
      the loops. */
  function MatchPage(table: Dict<SearchInfo>, text: string): Option<Hit> {
    MatchEntries(table, Lower(text), 0)
  }

  // ---------------------------------------------------------------- excerpt

  /** The excerpt shown for a match at `text[start..end]`: when the page holds
      little else (at most 10 characters before and after), the matched text
      itself; otherwise the match with up to 10 characters of context on each
      side. Either way trimmed: the excerpt is what remains of that window
      once the whitespace at its ends is removed, found in the page at
      `ExcerptStart`. */
  function Excerpt(text: string, start: nat, end: nat): (r: string)
    requires start <= end <= |text|
    ensures |r| <= end - start + 2 * CONTEXT_CHAR_LIMIT
    ensures IsExact(text, start, end) ==> |r| <= end - start
    ensures IsExact(text, start, end) ==> Stripped(text, start, end, ExcerptStart(text, start, end), r)
    ensures !IsExact(text, start, end) ==>
      Stripped(text, WindowLo(start), WindowHi(text, end), ExcerptStart(text, start, end), r)
    ensures Unpadded(r)
  {
    if IsExact(text, start, end) then
      TrimStripped(text, start, end);
      Trim(text[start..end])
    else
      TrimStripped(text, WindowLo(start), WindowHi(text, end));
      Trim(text[WindowLo(start)..WindowHi(text, end)])
  }

  /** Where the context window starts: 10 characters before the match, or at
      the start of the page when the match starts sooner. */
  function WindowLo(start: nat): (lo: nat)
    ensures lo <= start && start - CONTEXT_CHAR_LIMIT <= lo
    ensures lo == 0 || lo + CONTEXT_CHAR_LIMIT == start
  {
    if start >= CONTEXT_CHAR_LIMIT then start - CONTEXT_CHAR_LIMIT else 0
  }

  /** Where the context window ends: 10 characters after the match, or at the
      end of the page when the page ends sooner. */
  function WindowHi(text: string, end: nat): (hi: nat)
    requires end <= |text|
    ensures end <= hi <= |text| && hi <= end + CONTEXT_CHAR_LIMIT
    ensures hi == |text| || hi == end + CONTEXT_CHAR_LIMIT
  {
    if end + CONTEXT_CHAR_LIMIT <= |text| then end + CONTEXT_CHAR_LIMIT else |text|
  }

  /** Where in `text` the excerpt starts. */
  function ExcerptStart(text: string, start: nat, end: nat): nat
    requires start <= end <= |text|
  {
    if IsExact(text, start, end) then start + LeadingSpaces(text[start..end])
    else WindowLo(start) + LeadingSpaces(text[WindowLo(start)..WindowHi(text, end)])
  }

  /** The exact-match case: at most 10 characters before and after the match. */
  predicate IsExact(text: string, start: nat, end: nat)
    requires end <= |text|
  {
    start <= EXACT_MATCH_LIMIT && |text| - end <= EXACT_MATCH_LIMIT
  }

  // ---------------------------------------------------------------- reports

  /** The single-page document cut from page `pageIndex` (opaque bytes). */
  datatype PageBytes = SinglePage(pageIndex: nat)

  datatype Report = Report(
    id: string,
    studentName: string,
    matchedText: string,
    fileNameSchoolNo: string,
    fileNameStudent: string,
    pdfBytes: PageBytes,
    pageNumber: nat)

  datatype ParseResult = ParseResult(
    foundReports: seq<Report>,
    missingStudents: seq<string>,
    hasDuplicates: bool,
    totalPages: nat)

  /** The file name for the `count`-th occurrence of a school number:
      `{base}.pdf` for the first, `{base}_{count-1}.pdf` after that. */
  function FileName(base: string, count: nat): string
    requires count >= 1
  {
    if count > 1 then base + "_" + NatToString(count - 1) + ".pdf" else base + ".pdf"
  }

  /** `schoolNumberCounts[k] || 0` */
  function CountOf(counts: map<string, nat>, k: string): nat {
    if k in counts then counts[k] else 0
  }

  /** The state the page loop carries. */
  datatype Scan = Scan(
    reports: seq<Report>,
    found: set<string>,
    counts: map<string, nat>,
    hasDuplicates: bool)

  /** The student page `i` is assigned to, if any: the page text could be
      extracted, a pattern of the student occurs in the lower-cased page and
      no pattern of an earlier student does, and the matched name is truthy.
      A page whose text was extracted goes unassigned only when no pattern
      of any student occurs in it or the first student found has the empty
      name. */
  function Assigned(table: Dict<SearchInfo>, pages: seq<Option<string>>, i: nat): (r: Option<Hit>)
    requires i < |pages|
    ensures r.Some? ==>
      && pages[i].Some?
      && r.value.entry < |table.keys|
      && table.keys[r.value.entry] != ""
      && r.value.start <= r.value.end <= |pages[i].value|
      && r.value.pattern < |PatternsAt(table, r.value.entry)|
      && Leftmost(Lower(pages[i].value), PatternsAt(table, r.value.entry)[r.value.pattern])
         == Some((r.value.start, r.value.end))
      && forall e :: 0 <= e < r.value.entry ==> !AnyFound(Lower(pages[i].value), PatternsAt(table, e))
    ensures r.None? && pages[i].Some? ==>
      || (forall e :: 0 <= e < |table.keys| ==> !AnyFound(Lower(pages[i].value), PatternsAt(table, e)))
      || (MatchPage(table, pages[i].value).Some? && table.keys[MatchPage(table, pages[i].value).value.entry] == "")
  {
    match pages[i]
    case None => None
    case Some(text) =>
      match MatchPage(table, text)
      case None => None
      case Some(h) => if table.keys[h.entry] == "" then None else Some(h)
  }

  /** What the matcher decides for one page: the student, the student's
      school number, and the excerpt. */
  datatype PageMatch = PageMatch(student: string, schoolNo: string, matchedText: string)

  /** The decision for page `i`. It depends on that page alone; the loop
      state only decides the file names. */
  function MatchOfPage(table: Dict<SearchInfo>, pages: seq<Option<string>>, i: nat): (r: Option<PageMatch>)
    requires i < |pages|
    ensures r.Some? <==> Assigned(table, pages, i).Some?
    ensures r.Some? ==> r.value.student in table.values && r.value.schoolNo == table.values[r.value.student].schoolNo
  {
    match Assigned(table, pages, i)
    case None => None
    case Some(h) =>
      var name := table.keys[h.entry];
      assert name in table.keys;
      Some(PageMatch(name, table.values[name].schoolNo, Excerpt(pages[i].value, h.start, h.end)))
  }

  /** The decisions for all pages, in page order. */
  function PageMatches(table: Dict<SearchInfo>, pages: seq<Option<string>>): (ms: seq<Option<PageMatch>>)
    ensures |ms| == |pages|
    ensures forall i :: 0 <= i < |pages| ==> ms[i] == MatchOfPage(table, pages, i)
  {
    seq(|pages|, i requires 0 <= i < |pages| => MatchOfPage(table, pages, i))
  }

  /** The number the school number of `m` reaches when page `i` counts it. */
  function NextCount(counts: map<string, nat>, m: PageMatch): nat {
    CountOf(counts, m.schoolNo) + 1
  }

  /** The report for page `i` decided as `m`, its files named after the
      school number's next count. */
  function PageReport(m: PageMatch, uuid: nat -> string, counts: map<string, nat>, i: nat): Report {
    Report(
      uuid(i), m.student, m.matchedText,
      FileName(m.schoolNo, NextCount(counts, m)), FileName(m.student, NextCount(counts, m)), SinglePage(i), i + 1)
  }

  /** One iteration of the page loop over page `i`: count the school number,
      name the files, make the report, remember the student. */
  function ScanPage(matches: seq<Option<PageMatch>>, uuid: nat -> string, st: Scan, i: nat): Scan
    requires i < |matches|
  {
    match matches[i]
    case None => st
    case Some(m) =>
      Scan(st.reports + [PageReport(m, uuid, st.counts, i)], st.found + {m.student},
           st.counts[m.schoolNo := NextCount(st.counts, m)], st.hasDuplicates || NextCount(st.counts, m) > 1)
  }

  /** The loop state after the first `n` pages. */
  function ScanPages(matches: seq<Option<PageMatch>>, uuid: nat -> string, n: nat): Scan
    requires n <= |matches|
    decreases n
  {
    if n == 0 then Scan([], {}, map[], false)
    else ScanPage(matches, uuid, ScanPages(matches, uuid, n - 1), n - 1)
  }

  /** The names that matched no page. */
  function NotFound(found: set<string>): string -> bool {
    n => n !in found
  }

  /** `parsePdfForStudents(pdfBuffer, studentInfo)` once the document is
      loaded. */
  function ParsePdfForStudents(studentInfo: Dict<Prepared>, pages: seq<Option<string>>, uuid: nat -> string): (r: ParseResult)
    ensures r.totalPages == |pages|
    ensures Subseq(r.missingStudents, studentInfo.keys)
    ensures forall n :: n in r.missingStudents ==> n in studentInfo.values
  {
    var matches := PageMatches(BuildPatterns(studentInfo), pages);
    var st := ScanPages(matches, uuid, |pages|);
    ParseResult(st.reports, Filter(studentInfo.keys, NotFound(st.found)), st.hasDuplicates, |pages|)
  }
}
